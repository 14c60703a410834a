/**
 The clients flipr knows: read from the flags of flipr@clients, cached by revision, and
 what a request's announcement is taken for (clients.go, ctl.go).
 */
module KnownClients {
  import opened Flags
  import opened Store
  import opened Runs
  import opened Guarantees
  import opened Reads

  const CLIENTS := NsKey("flipr", "clients")
  const REFUSE_OTHER := "refuse.other"
  const KNOWN_PREFIX := "known."
  const CLIENT_TOOL := "fliprctl"

  // ---------------------------------------------------------------- announcements

  datatype Triple = Triple(lang: string, tag: string, hash: string)

  predicate IsSpace(c: char) {
    c == ' ' || '\t' <= c <= '\r' || c == '\U{85}' || c == '\U{A0}'
  }

  function TrimLeft(s: string): string {
    if s != "" && IsSpace(s[0]) then TrimLeft(s[1..]) else s
  }

  function TrimRight(s: string): string {
    if s != "" && IsSpace(s[|s|-1]) then TrimRight(s[..|s|-1]) else s
  }

  function TrimSpace(s: string): string { TrimRight(TrimLeft(s)) }

  /** The parts between slashes. */
  function Split(s: string): (parts: seq<string>)
    ensures |parts| >= 1 && forall p :: p in parts ==> '/' !in p
  {
    if s == "" then [""]
    else
      var rest := Split(s[1..]);
      if s[0] == '/' then [""] + rest else [[s[0]] + rest[0]] + rest[1..]
  }

  function Join(parts: seq<string>): string
    requires parts != []
  {
    if |parts| == 1 then parts[0] else parts[0] + "/" + Join(parts[1..])
  }

  /** Splitting loses nothing. */
  lemma {:induction false} JoinUndoesSplit(s: string)
    ensures Join(Split(s)) == s
  {
    if s == "" {
    } else {
      JoinUndoesSplit(s[1..]);
      var rest := Split(s[1..]);
      if s[0] == '/' {
        assert Split(s)[1..] == rest;
      } else if |rest| > 1 {
        assert Split(s)[1..] == rest[1..];
      }
    }
  }

  /** splitClient: lang/tag/hash, every part present. */
  function SplitClient(v: string): Option<Triple> {
    var parts := Split(TrimSpace(v));
    if |parts| != 3 || parts[0] == "" || parts[1] == "" || parts[2] == "" then None
    else Some(Triple(parts[0], parts[1], parts[2]))
  }

  /** The white space of Latin-1, character by character. */
  predicate IsWhite(c: char) {
    || c == ' ' || c == '\t' || c == '\n' || c == '\U{0B}' || c == '\U{0C}' || c == '\r'
    || c == '\U{85}' || c == '\U{A0}'
  }

  predicate Blank(s: string) { forall i :: 0 <= i < |s| ==> IsWhite(s[i]) }

  /** A text announces a client: language, tag and hash, none empty and none with a slash in
      it, with slashes between and only white space around. */
  ghost predicate Says(text: string, t: Triple) {
    && t.lang != "" && t.tag != "" && t.hash != ""
    && '/' !in t.lang && '/' !in t.tag && '/' !in t.hash
    && !IsWhite(t.lang[0]) && !IsWhite(t.hash[|t.hash|-1])
    && exists before, after :: Around(text, before, t.lang + "/" + t.tag + "/" + t.hash, after)
  }

  predicate Around(text: string, before: string, body: string, after: string) {
    Blank(before) && Blank(after) && text == before + body + after
  }

  lemma SpacesAreWhite(c: char)
    ensures IsSpace(c) <==> IsWhite(c)
  {
  }

  lemma TrimOneStep(s: string)
    ensures TrimLeft(s) == if s != "" && IsWhite(s[0]) then TrimLeft(s[1..]) else s
    ensures TrimRight(s) == if s != "" && IsWhite(s[|s|-1]) then TrimRight(s[..|s|-1]) else s
  {
    hide IsSpace, IsWhite;
    if s != "" {
      SpacesAreWhite(s[0]);
      SpacesAreWhite(s[|s|-1]);
    }
  }

  lemma BlankByParts(a: string, b: string)
    ensures Blank(a + b) <==> Blank(a) && Blank(b)
  {
    hide IsWhite;
    if Blank(a + b) {
      assert forall i :: 0 <= i < |a| ==> (a + b)[i] == a[i];
      assert forall i :: 0 <= i < |b| ==> (a + b)[|a| + i] == b[i];
    }
  }

  lemma BlankOne(c: char)
    ensures Blank([c]) <==> IsWhite(c)
    ensures Blank("")
  {
    hide IsWhite;
    assert [c][0] == c;
  }

  lemma {:induction false} TrimLeftStops(before: string, rest: string)
    requires Blank(before) && (rest == "" || !IsWhite(rest[0]))
    ensures TrimLeft(before + rest) == rest
  {
    hide *;
    TrimOneStep(before + rest);
    if before == "" {
      assert before + rest == rest;
    } else {
      assert (before + rest)[1..] == before[1..] + rest;
      assert before == [before[0]] + before[1..];
      BlankByParts([before[0]], before[1..]);
      BlankOne(before[0]);
      TrimLeftStops(before[1..], rest);
    }
  }

  lemma {:induction false} TrimRightStops(rest: string, after: string)
    requires Blank(after) && (rest == "" || !IsWhite(rest[|rest|-1]))
    ensures TrimRight(rest + after) == rest
  {
    hide *;
    TrimOneStep(rest + after);
    if after == "" {
      assert rest + after == rest;
    } else {
      var init, c := after[..|after|-1], after[|after|-1];
      assert (rest + after)[..|rest + after| - 1] == rest + init && (rest + after)[|rest + after| - 1] == c;
      assert after == init + [c];
      BlankByParts(init, [c]);
      BlankOne(c);
      TrimRightStops(rest, init);
    }
  }

  lemma {:induction false} LeftTrimmed(s: string) returns (before: string)
    ensures Blank(before) && s == before + TrimLeft(s)
    ensures TrimLeft(s) == "" || !IsWhite(TrimLeft(s)[0])
  {
    hide *;
    TrimOneStep(s);
    if s == "" || !IsWhite(s[0]) {
      before := "";
      BlankOne(' ');
    } else {
      var more := LeftTrimmed(s[1..]);
      before := [s[0]] + more;
      assert s == [s[0]] + s[1..];
      BlankOne(s[0]);
      BlankByParts([s[0]], more);
    }
  }

  lemma {:induction false} RightTrimmed(s: string) returns (after: string)
    ensures Blank(after) && s == TrimRight(s) + after
    ensures TrimRight(s) == "" || !IsWhite(TrimRight(s)[|TrimRight(s)|-1])
  {
    hide *;
    TrimOneStep(s);
    if s == "" || !IsWhite(s[|s|-1]) {
      after := "";
      BlankOne(' ');
    } else {
      var more := RightTrimmed(s[..|s|-1]);
      after := more + [s[|s|-1]];
      assert s == s[..|s|-1] + [s[|s|-1]];
      BlankOne(s[|s|-1]);
      BlankByParts(more, [s[|s|-1]]);
    }
  }

  lemma TrimmedOf(before: string, body: string, after: string)
    requires Blank(before) && Blank(after) && body != ""
    requires !IsWhite(body[0]) && !IsWhite(body[|body|-1])
    ensures TrimSpace(before + body + after) == body
  {
    hide *;
    assert before + body + after == before + (body + after);
    TrimLeftStops(before, body + after);
    TrimRightStops(body, after);
    TrimSpaceIs(before + body + after);
  }

  lemma TrimSpaceIs(s: string)
    ensures TrimSpace(s) == TrimRight(TrimLeft(s))
  {
    hide TrimLeft, TrimRight;
  }

  lemma {:induction false} SplitAtSlash(first: string, rest: string)
    requires '/' !in first
    ensures Split(first + "/" + rest) == [first] + Split(rest) && Split(first) == [first]
  {
    if first == "" {
      assert first + "/" + rest == "/" + rest && ("/" + rest)[1..] == rest;
    } else {
      assert (first + "/" + rest)[1..] == first[1..] + "/" + rest;
      SplitAtSlash(first[1..], rest);
      assert first == [first[0]] + first[1..];
    }
  }

  lemma AnnouncementSplits(t: Triple)
    requires '/' !in t.lang && '/' !in t.tag && '/' !in t.hash
    ensures Split(t.lang + "/" + t.tag + "/" + t.hash) == [t.lang, t.tag, t.hash]
  {
    hide Split;
    var rest := t.tag + "/" + t.hash;
    assert t.lang + "/" + t.tag + "/" + t.hash == t.lang + "/" + rest;
    SplitAtSlash(t.lang, rest);
    SplitAtSlash(t.tag, t.hash);
    SplitAtSlash(t.hash, "");
  }

  lemma AnnouncementOf(text: string, t: Triple)
    requires SplitClient(text) == Some(t)
    ensures Split(TrimSpace(text)) == [t.lang, t.tag, t.hash]
    ensures t.lang != "" && t.tag != "" && t.hash != ""
  {
    hide TrimSpace, Split;
  }

  lemma SplitClientOf(text: string, t: Triple)
    requires Split(TrimSpace(text)) == [t.lang, t.tag, t.hash] && t.lang != "" && t.tag != "" && t.hash != ""
    ensures SplitClient(text) == Some(t)
  {
    hide TrimSpace, Split;
  }

  lemma Joined(t: Triple)
    ensures Join([t.lang, t.tag, t.hash]) == t.lang + "/" + t.tag + "/" + t.hash
  {
    assert [t.lang, t.tag, t.hash][1..] == [t.tag, t.hash] && [t.tag, t.hash][1..] == [t.hash];
    assert Join([t.tag, t.hash]) == t.tag + "/" + t.hash;
    assert t.lang + "/" + (t.tag + "/" + t.hash) == t.lang + "/" + t.tag + "/" + t.hash;
  }

  /** splitClient reads a client out of a text exactly when the text announces it. */
  lemma SplitClientReadsWhatIsSaid(text: string, t: Triple)
    ensures SplitClient(text) == Some(t) <==> Says(text, t)
  {
    hide TrimSpace, TrimLeft, TrimRight, Split, Join, SplitClient, Blank, IsWhite;
    var body := t.lang + "/" + t.tag + "/" + t.hash;
    if SplitClient(text) == Some(t) {
      AnnouncementOf(text, t);
      JoinUndoesSplit(TrimSpace(text));
      Joined(t);
      TrimSpaceIs(text);
      var before := LeftTrimmed(text);
      var after := RightTrimmed(TrimLeft(text));
      assert body == TrimSpace(text);
      WholeEnds(TrimLeft(text), body, after);
      assert body[0] == t.lang[0] && body[|body|-1] == t.hash[|t.hash|-1];
      assert text == before + body + after;
      assert Around(text, before, body, after);
      forall p | p in Split(TrimSpace(text)) ensures '/' !in p {
      }
      assert t.lang in [t.lang, t.tag, t.hash] && t.tag in [t.lang, t.tag, t.hash] && t.hash in [t.lang, t.tag, t.hash];
    }
    if Says(text, t) {
      var before, after :| Around(text, before, body, after);
      assert body[0] == t.lang[0] && body[|body|-1] == t.hash[|t.hash|-1];
      TrimmedOf(before, body, after);
      AnnouncementSplits(t);
      SplitClientOf(text, t);
    }
  }

  lemma WholeEnds(left: string, body: string, after: string)
    requires left == body + after && body != "" && (left == "" || !IsWhite(left[0]))
    ensures !IsWhite(body[0])
  {
    hide IsWhite;
    assert left[0] == body[0];
  }

  function ClientKey(lang: string, tag: string): string { lang + "/" + tag }

  /** Two clients share an entry only if they share language and tag. */
  lemma ClientKeyIsInjective(a: Triple, b: Triple)
    requires '/' !in a.lang && '/' !in a.tag && '/' !in b.lang && '/' !in b.tag
    requires ClientKey(a.lang, a.tag) == ClientKey(b.lang, b.tag)
    ensures a.lang == b.lang && a.tag == b.tag
  {
    SplitAtTheMark(a.lang, a.tag, b.lang, b.tag, '/');
  }

  // ---------------------------------------------------------------- the set

  datatype ClientSet = ClientSet(revision: nat, known: map<string, string>, refuse: bool)

  /** The triple an entry of the set names, if it names one. */
  function EntryOf(f: Flag): Option<Triple> {
    if f.key != REFUSE_OTHER && KNOWN_PREFIX <= f.key then SplitClient(StringOf(f.value)) else None
  }

  /** The hash the set holds for a client: the last entry naming it decides. */
  function HashFor(flags: seq<Flag>, lang: string, tag: string): Option<string> {
    if flags == [] then None
    else
      var e := EntryOf(flags[|flags|-1]);
      if e.Some? && e.value.lang == lang && e.value.tag == tag then Some(e.value.hash)
      else HashFor(flags[..|flags|-1], lang, tag)
  }

  /** A flag of the set names a client. */
  ghost predicate Names(f: Flag, t: Triple) {
    f.key != "refuse.other" && "known." <= f.key && f.value.StringValue? && Says(f.value.s, t)
  }

  /** The last flag to name a client of this language and tag names this triple. */
  ghost predicate ListsLast(flags: seq<Flag>, t: Triple) {
    exists i :: 0 <= i < |flags| && Names(flags[i], t) && NoneNames(flags[i+1..], t.lang, t.tag)
  }

  ghost predicate NoneNames(flags: seq<Flag>, lang: string, tag: string) {
    forall f, t :: f in flags && Names(f, t) ==> t.lang != lang || t.tag != tag
  }

  lemma NothingSaidIsBlank(t: Triple)
    ensures !Says("", t)
  {
  }

  lemma AnEntryNamesItsClient(f: Flag, t: Triple)
    ensures EntryOf(f) == Some(t) <==> Names(f, t)
  {
    hide Says, SplitClient;
    SplitClientReadsWhatIsSaid(if f.value.StringValue? then f.value.s else "", t);
    NothingSaidIsBlank(t);
  }

  lemma {:induction false} TheLastEntryDecides(flags: seq<Flag>, t: Triple)
    ensures HashFor(flags, t.lang, t.tag) == Some(t.hash) <==> ListsLast(flags, t)
  {
    hide EntryOf, Names;
    if flags == [] {
    } else {
      var init, f := flags[..|flags|-1], flags[|flags|-1];
      TheLastEntryDecides(init, t);
      OneMoreListed(init, f, t);
      assert flags == init + [f];
      forall u ensures EntryOf(f) == Some(u) <==> Names(f, u) {
        AnEntryNamesItsClient(f, u);
      }
      assert Triple(t.lang, t.tag, t.hash) == t;
    }
  }

  lemma NoneNamesConcat(a: seq<Flag>, f: Flag, lang: string, tag: string)
    ensures NoneNames(a + [f], lang, tag) <==> NoneNames(a, lang, tag) && NoneNames([f], lang, tag)
  {
    hide Names;
    assert forall g :: g in a + [f] <==> g in a || g in [f];
  }

  lemma OneMoreListed(init: seq<Flag>, f: Flag, t: Triple)
    ensures ListsLast(init + [f], t) <==> Names(f, t) || (ListsLast(init, t) && NoneNames([f], t.lang, t.tag))
  {
    hide Names, NoneNames;
    var flags := init + [f];
    NothingNamesNone(t);
    assert flags[|init|] == f && flags[|init|+1..] == [];
    if ListsLast(flags, t) {
      var i :| 0 <= i < |flags| && Names(flags[i], t) && NoneNames(flags[i+1..], t.lang, t.tag);
      if i < |init| {
        assert flags[i+1..] == init[i+1..] + [f] && flags[i] == init[i];
        NoneNamesConcat(init[i+1..], f, t.lang, t.tag);
      }
    }
    if ListsLast(init, t) && NoneNames([f], t.lang, t.tag) {
      var i :| 0 <= i < |init| && Names(init[i], t) && NoneNames(init[i+1..], t.lang, t.tag);
      assert flags[i] == init[i] && flags[i+1..] == init[i+1..] + [f];
      NoneNamesConcat(init[i+1..], f, t.lang, t.tag);
    }
  }

  lemma NothingNamesNone(t: Triple)
    ensures NoneNames([], t.lang, t.tag)
  {
    hide Names;
  }

  predicate Refuses(flags: seq<Flag>) {
    exists f :: f in flags && f.key == "refuse.other" && f.value == BoolValue(true)
  }

  predicate Knows(c: ClientSet, flags: seq<Flag>, lang: string, tag: string) {
    if HashFor(flags, lang, tag).Some?
    then ClientKey(lang, tag) in c.known && c.known[ClientKey(lang, tag)] == HashFor(flags, lang, tag).value
    else ClientKey(lang, tag) !in c.known
  }

  /** The set is what the flags say, entry by entry, and refuses when its one switch is on. */
  ghost predicate IsSetOf(c: ClientSet, flags: seq<Flag>) {
    && (forall lang: string, tag: string :: '/' !in lang && '/' !in tag ==> Knows(c, flags, lang, tag))
    && (c.refuse <==> Refuses(flags))
  }

  /** The loop that reads the set from the namespace. */
  method ReadSet(flags: seq<Flag>, revision: nat) returns (c: ClientSet)
    requires InKeyOrder(flags)
    ensures c.revision == revision && IsSetOf(c, flags)
  {
    hide EntryOf, HashFor, Knows, IsSetOf, SplitClient, ClientKey, InKeyOrder, BoolOf, StringOf;
    NoEntries(revision);
    c := ClientSet(revision, map[], false);
    assert flags[..0] == [] && flags[..|flags|] == flags;
    for i := 0 to |flags|
      invariant c.revision == revision && IsSetOf(c, flags[..i])
    {
      var f := flags[i];
      var was := c;
      if f.key == REFUSE_OTHER {
        c := c.(refuse := BoolOf(f.value));
      } else if KNOWN_PREFIX <= f.key {
        var e := SplitClient(StringOf(f.value));
        if e.Some? {
          c := c.(known := c.known[ClientKey(e.value.lang, e.value.tag) := e.value.hash]);
        }
      }
      WhichEntry(f);
      OneMoreEntry(was, c, flags, i);
    }
  }

  lemma NoEntries(revision: nat)
    ensures IsSetOf(ClientSet(revision, map[], false), [])
  {
  }

  lemma WhichEntry(f: Flag)
    ensures f.key == REFUSE_OTHER ==> EntryOf(f) == None
    ensures f.key != REFUSE_OTHER && KNOWN_PREFIX <= f.key ==> EntryOf(f) == SplitClient(StringOf(f.value))
    ensures !(KNOWN_PREFIX <= f.key) ==> EntryOf(f) == None
  {
  }

  lemma OneMoreHash(flags: seq<Flag>, f: Flag, lang: string, tag: string)
    ensures var e := EntryOf(f);
            HashFor(flags + [f], lang, tag) ==
            if e.Some? && e.value.lang == lang && e.value.tag == tag then Some(e.value.hash)
            else HashFor(flags, lang, tag)
  {
    hide EntryOf;
    assert (flags + [f])[..|flags|] == flags;
  }

  lemma EntryHasNoSlash(f: Flag)
    ensures EntryOf(f).Some? ==> '/' !in EntryOf(f).value.lang && '/' !in EntryOf(f).value.tag
  {
    hide TrimSpace;
  }

  lemma OneMoreKnown(was: ClientSet, now: ClientSet, flags: seq<Flag>, f: Flag, lang: string, tag: string)
    requires '/' !in lang && '/' !in tag && Knows(was, flags, lang, tag)
    requires var e := EntryOf(f);
             now.known == if e.Some? then was.known[ClientKey(e.value.lang, e.value.tag) := e.value.hash] else was.known
    ensures Knows(now, flags + [f], lang, tag)
  {
    hide EntryOf, HashFor, ClientKey;
    OneMoreHash(flags, f, lang, tag);
    EntryHasNoSlash(f);
    var e := EntryOf(f);
    if e.Some? && ClientKey(lang, tag) == ClientKey(e.value.lang, e.value.tag) {
      ClientKeyIsInjective(Triple(lang, tag, ""), e.value);
    }
  }

  lemma OneMoreSwitch(flags: seq<Flag>, i: nat)
    requires i < |flags| && InKeyOrder(flags)
    ensures Refuses(flags[..i+1]) <==>
            if flags[i].key == REFUSE_OTHER then BoolOf(flags[i].value) else Refuses(flags[..i])
  {
    hide InKeyOrder, Less;
    assert flags[..i+1] == flags[..i] + [flags[i]];
    if flags[i].key == REFUSE_OTHER {
      forall f | f in flags[..i] ensures f.key != REFUSE_OTHER {
        var j :| 0 <= j < i && flags[j] == f;
        KeysDiffer(flags, j, i);
      }
    }
  }

  lemma KeysDiffer(flags: seq<Flag>, j: nat, i: nat)
    requires InKeyOrder(flags) && j < i < |flags|
    ensures flags[j].key != flags[i].key
  {
    hide Less;
    LessIsTotal(flags[j].key, flags[i].key);
  }

  lemma OneMoreEntry(was: ClientSet, now: ClientSet, flags: seq<Flag>, i: nat)
    requires i < |flags| && InKeyOrder(flags) && IsSetOf(was, flags[..i])
    requires now.refuse == if flags[i].key == REFUSE_OTHER then BoolOf(flags[i].value) else was.refuse
    requires var e := EntryOf(flags[i]);
             now.known == if e.Some? then was.known[ClientKey(e.value.lang, e.value.tag) := e.value.hash] else was.known
    ensures IsSetOf(now, flags[..i+1])
  {
    hide EntryOf, Knows, InKeyOrder, Refuses, BoolOf;
    assert flags[..i+1] == flags[..i] + [flags[i]];
    OneMoreSwitch(flags, i);
    forall lang: string, tag: string | '/' !in lang && '/' !in tag ensures Knows(now, flags[..i+1], lang, tag) {
      assert Knows(was, flags[..i], lang, tag);
      OneMoreKnown(was, now, flags[..i], flags[i], lang, tag);
    }
  }

  // ---------------------------------------------------------------- what a request is taken for

  datatype Label = Known(lang: string, tag: string) | Tool | Other | Absent

  function ClientLabel(header: string, c: ClientSet, version: string): Label {
    if TrimSpace(header) == "" then Absent
    else
      var t := SplitClient(header);
      if t.None? then Other
      else if t.value.lang == CLIENT_TOOL then (if t.value.tag == version then Tool else Other)
      else
        var k := ClientKey(t.value.lang, t.value.tag);
        if k in c.known && c.known[k] == t.value.hash then Known(t.value.lang, t.value.tag) else Other
  }

  predicate Admitted(header: string, c: ClientSet, version: string) {
    !(c.refuse && (ClientLabel(header, c, version).Other? || ClientLabel(header, c, version).Absent?))
  }

  /** A request is turned away exactly when the switch is on and its header announces
      neither the tool of this build nor a client the set lists last under its language
      and tag. */
  lemma AdmittedMeansListed(header: string, c: ClientSet, version: string, flags: seq<Flag>)
    requires IsSetOf(c, flags)
    ensures Admitted(header, c, version) <==>
            || !Refuses(flags)
            || exists t :: Says(header, t) && Welcome(t, version, flags)
  {
    hide SplitClient, Says, HashFor, ListsLast, Refuses, TrimSpace;
    var t := SplitClient(header);
    if TrimSpace(header) == "" {
      BlankSaysNothing(header);
    }
    if t.Some? {
      SplitClientReadsWhatIsSaid(header, t.value);
      TheLastEntryDecides(flags, t.value);
      SaidHasNoSlash(header, t.value);
    }
    if u :| Says(header, u) && Welcome(u, version, flags) {
      SplitClientReadsWhatIsSaid(header, u);
    }
  }

  ghost predicate Welcome(t: Triple, version: string, flags: seq<Flag>) {
    if t.lang == "fliprctl" then t.tag == version else ListsLast(flags, t)
  }

  lemma SaidHasNoSlash(text: string, t: Triple)
    requires Says(text, t)
    ensures '/' !in t.lang && '/' !in t.tag
  {
  }

  lemma BlankSaysNothing(header: string)
    requires TrimSpace(header) == ""
    ensures SplitClient(header) == None
  {
    hide TrimSpace;
    assert Split("") == [""];
  }

  /** What a request is counted as. */
  lemma TheLabelSays(header: string, c: ClientSet, version: string, flags: seq<Flag>)
    requires IsSetOf(c, flags)
    ensures var taken := ClientLabel(header, c, version);
            && (taken == Absent <==> Blank(header))
            && (taken == Tool <==> exists t :: Says(header, t) && t.lang == "fliprctl" && t.tag == version)
            && forall lang, tag :: taken == Known(lang, tag) <==>
                 exists t :: Says(header, t) && t.lang == lang != "fliprctl" && t.tag == tag && ListsLast(flags, t)
  {
    hide SplitClient, Says, HashFor, ListsLast, Refuses, TrimSpace, Blank;
    var t := SplitClient(header);
    BlankIsTrimmedAway(header);
    if TrimSpace(header) == "" {
      BlankSaysNothing(header);
    }
    forall u ensures t == Some(u) <==> Says(header, u) {
      SplitClientReadsWhatIsSaid(header, u);
    }
    if t.Some? {
      TheLastEntryDecides(flags, t.value);
      SaidHasNoSlash(header, t.value);
    }
  }

  lemma BlankIsTrimmedAway(s: string)
    ensures TrimSpace(s) == "" <==> Blank(s)
  {
    hide TrimLeft, TrimRight, IsWhite;
    var before := LeftTrimmed(s);
    var after := RightTrimmed(TrimLeft(s));
    if Blank(s) {
      TrimLeftStops(s, "");
      TrimRightStops("", "");
      assert s + "" == s && "" + "" == "";
    }
    if TrimSpace(s) == "" {
      assert s == before + after;
    }
  }

  // ---------------------------------------------------------------- the cache

  /** A set is true of a store when it is the one its snapshot says, under its number. */
  ghost predicate TrueOf(s: StoreState, c: ClientSet) {
    c.revision == s.revision &&
    exists flags :: Answers(s.snap, NsKey("flipr", "clients"), flags) && IsSetOf(c, if flags.Some? then flags.value else [])
  }

  /** One answer, from what was cached: the cached set under the same number, or a true one. */
  ghost predicate Answered(cached: Option<ClientSet>, s: StoreState, c: ClientSet) {
    if cached.Some? && cached.value.revision == s.revision then c == cached.value else TrueOf(s, c)
  }

  class ClientSets {
    var cur: Option<ClientSet>

    constructor ()
      ensures cur == None
    {
      cur := None;
    }

    /** current: the set under the store's number, rebuilt when the number moved. */
    method Current(s: StoreState) returns (c: ClientSet)
      requires SnapshotFiled(s.snap)
      modifies this
      ensures Answered(old(cur), s, c) && cur == Some(c)
    {
      if cur.Some? && cur.value.revision == s.revision {
        return cur.value;
      }
      var flags := GetNamespace(s.snap, CLIENTS);
      c := ReadSet(if flags.Some? then flags.value else [], s.revision);
      cur := Some(c);
    }
  }

  // ---------------------------------------------------------------- the cache over a process

  /** The events of one process; every other one starts a new process, with nothing cached. */
  predicate OneProcess(es: seq<Event>) {
    forall e :: e in es ==> e.Write? || e.Notice?
  }

  lemma StepInAProcess(w: World, e: Event)
    requires e.Write? || e.Notice?
    ensures var s, t := w.store, Step(w, e).store;
            t.revision >= s.revision && (t.revision == s.revision ==> t.snap == s.snap)
  {
    if e.Write? {
      AWriteIsATransact(w, e);
      TransactedWithoutANumber(w.store, e.ns, Enforced(e.m), e.w);
      hide Transacted, Step;
    }
  }

  lemma AWriteIsATransact(w: World, e: Event)
    requires e.Write?
    ensures Step(w, e).store == Transacted(w.store, e.ns, Enforced(e.m), true, e.w).0
  {
    hide Transacted, RecordFor, Declare;
  }

  /** While a process runs numbers never fall, and one number is one snapshot: a reload that
      failed left readers where they were under a number of its own. */
  lemma {:induction false} OneNumberOneSnapshot(w: World, es: seq<Event>, i: nat, j: nat)
    requires OneProcess(es) && i <= j <= |es|
    ensures var s, t := Exec(w, es[..i]).store, Exec(w, es[..j]).store;
            t.revision >= s.revision && (t.revision == s.revision ==> t.snap == s.snap)
  {
    hide Exec, Step;
    if i == j {
    } else {
      OneNumberOneSnapshot(w, es, i, j - 1);
      assert es[..j][..j-1] == es[..j-1] && es[..j][j-1] == es[j-1] && es[j-1] in es;
      OneMoreEvent(w, es[..j]);
      StepInAProcess(Exec(w, es[..j-1]), es[j-1]);
    }
  }

  /** A call of `current` made between two events of the run, and what it answered. */
  datatype Call = Call(at: nat, answer: ClientSet)

  /** The calls of one process in the order they were made, each from what the one before
      it cached. */
  ghost predicate CallsOf(w: World, es: seq<Event>, calls: seq<Call>) {
    forall i: nat :: i < |calls| ==> FollowsOn(w, es, calls, i)
  }

  ghost predicate FollowsOn(w: World, es: seq<Event>, calls: seq<Call>, i: nat)
    requires i < |calls|
  {
    && calls[i].at <= |es|
    && (i > 0 ==> calls[i-1].at <= calls[i].at)
    && Answered(if i == 0 then None else Some(calls[i-1].answer), Exec(w, es[..calls[i].at]).store, calls[i].answer)
  }

  /** Every call a process makes, however many writes come between and whatever becomes of
      them, answers the set its store's snapshot says at that moment. */
  lemma {:induction false} EveryAnswerIsTrue(w: World, es: seq<Event>, calls: seq<Call>, i: nat)
    requires OneProcess(es) && CallsOf(w, es, calls) && i < |calls|
    ensures FollowsOn(w, es, calls, i)
    ensures TrueOf(Exec(w, es[..calls[i].at]).store, calls[i].answer)
  {
    hide Exec, IsSetOf, Answers, OneProcess;
    assert FollowsOn(w, es, calls, i);
    if i == 0 {
    } else {
      EveryAnswerIsTrue(w, es, calls, i - 1);
      OneNumberOneSnapshot(w, es, calls[i-1].at, calls[i].at);
    }
  }

  /** Within a generation, a set once true of its number stays true of it, so a cache hit is
      a fresh read. */
  lemma ACachedSetStaysTrue(w: World, es: seq<Event>, c: ClientSet)
    requires w.store.durable == w.store.revision && w.store.snap == View(w.store.disk)
    requires Exec(w, es).generation == w.generation && Exec(w, es).store.revision == c.revision
    requires TrueOf(w.store, c)
    ensures TrueOf(Exec(w, es).store, c)
  {
    hide Exec, View, IsSetOf, Answers;
    RunWithinAGeneration(w, es);
  }
}
