/**
 Lines that frame their record: what a torn tail costs depends on the line format alone,
 and there is a format with the law the files rely on.
 */
module LineFormat {
  import opened Flags
  import opened Oplog
  import opened OplogFile
  import opened Recovery
  import opened Store
  import opened ValueText

  /** The law of a line that opens with a mark and ends where its record ends, as an object
      in JSON does: what was torn from one record, or all of it, with another record behind
      it reads as no record. */
  ghost predicate Framed(codec: Codec) {
    && Faithful(codec)
    && forall s: Record, r: Record, k: nat :: 0 < k <= |codec.encode(s)| ==> Unreadable(codec, s, k, r)
  }

  predicate Unreadable(codec: Codec, s: Record, k: nat, r: Record)
    requires k <= |codec.encode(s)|
  {
    codec.decode(codec.encode(s)[..k] + codec.encode(r)).None?
  }

  lemma {:induction false} TornBehindWholeLines(file: string, t: string)
    requires Complete(file) && '\n' !in t
    ensures Torn(file + t) == t && Lines(file + t) == Lines(file)
    decreases |file|
  {
    hide *;
    CompleteSays(file);
    if '\n' !in file {
      assert file + t == t;
      TornAfter(t, "");
      NoLines(t);
      NoLines(file);
    } else {
      var head, rest := FirstLine(file);
      assert file + t == head + "\n" + (rest + t);
      CompleteRest(head, rest);
      TornAfter(head, rest + t);
      LineFirst(head, rest);
      LineFirst(head, rest + t);
      TornBehindWholeLines(rest, t);
    }
  }

  lemma CompleteSays(file: string)
    requires Complete(file)
    ensures '\n' !in file ==> file == ""
  {
  }

  lemma CompleteRest(head: string, rest: string)
    requires Complete(head + "\n" + rest)
    ensures Complete(rest)
  {
  }

  /** What a kill in the middle of a record costs. The file reads as it did before it; and
      the next record appended, whole and answered for, is read back iff nothing at all of
      the killed one had landed. Otherwise both are lost, in a line that does not parse, and
      no heal of the file is accepted from then on. */
  lemma ATornRecordTakesTheNextWithIt(file: string, codec: Codec, killed: Record, k: nat, next: Record,
                                      s: StoreState, wx: Forecast)
    requires Framed(codec) && Complete(file) && k <= |codec.encode(killed)|
    ensures var torn := file + codec.encode(killed)[..k];
            var now := torn + codec.encode(next) + "\n";
            && FileRecords(torn, codec) == FileRecords(file, codec) && FileBad(torn, codec) == FileBad(file, codec)
            && (FileRecords(now, codec) == FileRecords(file, codec) + [next] <==> k == 0)
            && (k > 0 ==> FileRecords(now, codec) == FileRecords(file, codec)
                          && FileBad(now, codec) == FileBad(file, codec) + 1
                          && !Accepted(s, FileRecords(now, codec), FileBad(now, codec), 0, wx))
  {
    hide Lines, Torn, Complete, Parsed, CountBad, ReplayFold, Restores;
    var t := codec.encode(killed)[..k];
    TornBehindWholeLines(file, t);
    AppendedRecordIsLast(file + t, codec, next);
    if k > 0 {
      assert Unreadable(codec, killed, k, next);
      assert |FileRecords(file, codec) + [next]| == |FileRecords(file, codec)| + 1;
    } else {
      assert t == "" && "" + codec.encode(next) == codec.encode(next);
    }
  }

  // ---------------------------------------------------------------- a format that is framed

  function Joined(parts: seq<string>, mark: char): string {
    if parts == [] then "" else parts[0] + [mark] + Joined(parts[1..], mark)
  }

  function Words(ns: seq<nat>): (words: seq<string>)
    ensures |words| == |ns|
    ensures forall i :: 0 <= i < |ns| ==> words[i] == FormatNat(ns[i])
  {
    if ns == [] then [] else [FormatNat(ns[0])] + Words(ns[1..])
  }

  function Texts(fields: seq<seq<nat>>): (texts: seq<string>)
    ensures |texts| == |fields|
    ensures forall i :: 0 <= i < |fields| ==> texts[i] == Joined(Words(fields[i]), ',')
  {
    if fields == [] then [] else [Joined(Words(fields[0]), ',')] + Texts(fields[1..])
  }

  function Codes(s: string): seq<nat> { seq(|s|, i requires 0 <= i < |s| => s[i] as int as nat) }

  function ValueFields(v: Value): seq<seq<nat>> {
    match v
    case Unset => [[0]]
    case BoolValue(b) => [[1], [if b then 1 else 0]]
    case StringValue(s) => [[2], Codes(s)]
    case IntValue(n) => [[3], if n < 0 then [0, -(n as int)] else [1, n as int]]
  }

  function PayloadFields(p: Payload): seq<seq<nat>> {
    match p
    case Typed(None) => [[0]]
    case Typed(Some(v)) => [[1]] + ValueFields(v)
    case Text(text) => [[2], Codes(text)]
  }

  function OpFields(op: Op): seq<seq<nat>> {
    match op
    case SetFlag(ns, key, payload) => [[0], Codes(ns.service), Codes(ns.version), Codes(key)] + PayloadFields(payload)
    case DeleteNamespace(ns) => [[1], Codes(ns.service), Codes(ns.version)]
    case PublishNamespace(ns, flags) => [[2], Codes(ns.service), Codes(ns.version), [flags]]
    case Restore(to, from) => [[3], [to], [from]]
    case Notice => [[4]]
  }

  function Fields(r: Record): seq<seq<nat>> { [[r.revision]] + OpFields(r.op) }

  /** An opening mark, and the fields: numbers and two separators, and nothing else. */
  function Line(r: Record): string { "{" + Joined(Texts(Fields(r)), ';') }

  /** The record a line was written from, if it was. */
  ghost function ReadLineBack(line: string): Option<Record> {
    if r: Record :| Line(r) == line then Some(r) else None
  }

  // Reading is undoing: each layer can be told apart again.

  lemma {:induction false} JoinedIsInjective(a: seq<string>, b: seq<string>, mark: char)
    requires forall p :: p in a || p in b ==> mark !in p
    requires Joined(a, mark) == Joined(b, mark)
    ensures a == b
  {
    if a == [] || b == [] {
    } else {
      assert a[0] in a && b[0] in b;
      assert forall p :: p in a[1..] ==> p in a;
      assert forall p :: p in b[1..] ==> p in b;
      SplitAtTheMark(a[0], Joined(a[1..], mark), b[0], Joined(b[1..], mark), mark);
      JoinedIsInjective(a[1..], b[1..], mark);
      assert a == [a[0]] + a[1..] && b == [b[0]] + b[1..];
    }
  }

  lemma {:induction false} JoinedHolds(parts: seq<string>, mark: char, c: char)
    requires c != mark && forall p :: p in parts ==> c !in p
    ensures c !in Joined(parts, mark)
  {
    if parts == [] {
    } else {
      assert parts[0] in parts;
      assert forall p :: p in parts[1..] ==> p in parts;
      JoinedHolds(parts[1..], mark, c);
    }
  }

  predicate IsDigit(c: char) { '0' <= c <= '9' }

  lemma WordsHold(ns: seq<nat>, c: char)
    requires !IsDigit(c)
    ensures forall p :: p in Words(ns) ==> c !in p
  {
  }

  lemma WordsAreInjective(a: seq<nat>, b: seq<nat>)
    requires Words(a) == Words(b)
    ensures a == b
  {
    forall i | 0 <= i < |a| ensures a[i] == b[i] {
      assert Words(a)[i] == FormatNat(a[i]) && Words(b)[i] == FormatNat(b[i]);
      DigitsReadBack(a[i]);
      DigitsReadBack(b[i]);
    }
  }

  lemma TextsHold(fields: seq<seq<nat>>, c: char)
    requires !IsDigit(c) && c != ','
    ensures forall p :: p in Texts(fields) ==> c !in p
  {
    forall i | 0 <= i < |fields| ensures c !in Texts(fields)[i] {
      WordsHold(fields[i], c);
      JoinedHolds(Words(fields[i]), ',', c);
    }
  }

  lemma TextsAreInjective(a: seq<seq<nat>>, b: seq<seq<nat>>)
    requires Texts(a) == Texts(b)
    ensures a == b
  {
    forall i | 0 <= i < |a| ensures a[i] == b[i] {
      assert Texts(a)[i] == Joined(Words(a[i]), ',') && Texts(b)[i] == Joined(Words(b[i]), ',');
      WordsHold(a[i], ',');
      WordsHold(b[i], ',');
      JoinedIsInjective(Words(a[i]), Words(b[i]), ',');
      WordsAreInjective(a[i], b[i]);
    }
  }

  lemma CodesAreInjective(a: string, b: string)
    ensures Codes(a) == Codes(b) <==> a == b
  {
    if Codes(a) == Codes(b) {
      forall i | 0 <= i < |a| ensures a[i] == b[i] {
        assert Codes(a)[i] == Codes(b)[i];
      }
    }
  }

  lemma ValueFieldsAreInjective(a: Value, b: Value)
    requires ValueFields(a) == ValueFields(b)
    ensures a == b
  {
    var x, y := ValueFields(a), ValueFields(b);
    assert x[0][0] == y[0][0];
    if a.StringValue? {
      CodesAreInjective(a.s, b.s);
      assert x[1] == y[1];
    } else if !a.Unset? {
      assert x[1] == y[1];
      assert x[1][0] == y[1][0] && (a.IntValue? ==> x[1][1] == y[1][1]);
    }
  }

  lemma PayloadFieldsAreInjective(a: Payload, b: Payload)
    requires PayloadFields(a) == PayloadFields(b)
    ensures a == b
  {
    var x, y := PayloadFields(a), PayloadFields(b);
    assert x[0][0] == y[0][0];
    if a.Text? {
      assert x[1] == y[1];
      CodesAreInjective(a.text, b.text);
    } else if a.decoded.Some? {
      assert x[1..] == ValueFields(a.decoded.value) && y[1..] == ValueFields(b.decoded.value);
      ValueFieldsAreInjective(a.decoded.value, b.decoded.value);
    }
  }

  lemma OpFieldsAreInjective(a: Op, b: Op)
    requires OpFields(a) == OpFields(b)
    ensures a == b
  {
    var x, y := OpFields(a), OpFields(b);
    assert x[0][0] == y[0][0];
    if a.Restore? {
      assert x[1][0] == y[1][0] && x[2][0] == y[2][0];
    } else if !a.Notice? {
      assert x[1] == y[1] && x[2] == y[2];
      CodesAreInjective(a.ns.service, b.ns.service);
      CodesAreInjective(a.ns.version, b.ns.version);
      if a.PublishNamespace? {
        assert x[3][0] == y[3][0];
      }
      if a.SetFlag? {
        assert x[3] == y[3];
        CodesAreInjective(a.key, b.key);
        assert x[4..] == PayloadFields(a.payload) && y[4..] == PayloadFields(b.payload);
        PayloadFieldsAreInjective(a.payload, b.payload);
      }
    }
  }

  lemma LineIsInjective(a: Record, b: Record)
    requires Line(a) == Line(b)
    ensures a == b
  {
    hide Joined, Texts, OpFields;
    var x, y := Texts(Fields(a)), Texts(Fields(b));
    assert Line(a)[1..] == Joined(x, ';') && Line(b)[1..] == Joined(y, ';');
    TextsHold(Fields(a), ';');
    TextsHold(Fields(b), ';');
    JoinedIsInjective(x, y, ';');
    TextsAreInjective(Fields(a), Fields(b));
    assert Fields(a)[0][0] == Fields(b)[0][0];
    assert Fields(a)[1..] == OpFields(a.op) && Fields(b)[1..] == OpFields(b.op);
    OpFieldsAreInjective(a.op, b.op);
  }

  lemma LineOpensOnce(r: Record)
    ensures Line(r) != "" && Line(r)[0] == '{'
    ensures '{' !in Line(r)[1..] && '\n' !in Line(r)
  {
    hide Joined, Texts, Fields;
    var body := Joined(Texts(Fields(r)), ';');
    assert Line(r)[1..] == body;
    TextsHold(Fields(r), '{');
    TextsHold(Fields(r), '\n');
    JoinedHolds(Texts(Fields(r)), ';', '{');
    JoinedHolds(Texts(Fields(r)), ';', '\n');
  }

  lemma LinesReadBack(r: Record)
    ensures ReadLineBack(Line(r)) == Some(r)
  {
    hide Line;
    var x := ReadLineBack(Line(r));
    assert x.Some? && Line(x.value) == Line(r);
    LineIsInjective(x.value, r);
  }

  lemma TwoMarksAreNoLine(s: Record, k: nat, r: Record)
    requires 0 < k <= |Line(s)|
    ensures ReadLineBack(Line(s)[..k] + Line(r)) == None
  {
    hide Line;
    var l := Line(s)[..k] + Line(r);
    LineOpensOnce(r);
    assert l[k] == '{';
    forall x: Record ensures Line(x) != l {
      LineOpensOnce(x);
    }
  }

  /** There is such a format: every contract that asks for a faithful codec can be met, and
      a torn tail does cost the record behind it. */
  lemma AFramedFormatExists()
    ensures exists codec: Codec :: Framed(codec)
  {
    hide Line, ReadLineBack;
    var codec := Codec(Line, (l: string) => ReadLineBack(l));
    forall r: Record ensures '\n' !in codec.encode(r) && codec.decode(codec.encode(r)) == Some(r) {
      LineOpensOnce(r);
      LinesReadBack(r);
    }
    forall s: Record, r: Record, k: nat | 0 < k <= |codec.encode(s)| ensures Unreadable(codec, s, k, r) {
      TwoMarksAreNoLine(s, k, r);
    }
    assert Framed(codec);
  }
}
