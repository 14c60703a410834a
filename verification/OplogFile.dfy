/**
 The oplog as a file: complete lines of text, walked, scanned and appended to, and the
 loop that works out which restores stand (filelog.go).
 */
module OplogFile {
  import opened Flags
  import opened Oplog
  import opened TimeTravel

  // ---------------------------------------------------------------- lines

  /** The complete lines of a file. What follows the last newline is a write that
      never finished, and is no line. */
  function Lines(file: string): (lines: seq<string>)
    ensures forall l :: l in lines ==> '\n' !in l
    ensures |lines| <= |file|
  {
    if '\n' !in file then []
    else
      var i := FirstNewline(file);
      [file[..i]] + Lines(file[i+1..])
  }

  function FirstNewline(s: string): (i: nat)
    requires '\n' in s
    ensures i < |s| && s[i] == '\n' && '\n' !in s[..i]
  {
    if s[0] == '\n' then 0
    else
      assert s == [s[0]] + s[1..];
      var i := FirstNewline(s[1..]);
      assert s[..i+1] == [s[0]] + s[1..][..i];
      1 + i
  }

  function Encoded(lines: seq<string>): string {
    if lines == [] then "" else lines[0] + "\n" + Encoded(lines[1..])
  }

  /** A file that ends where a line ends. */
  predicate Complete(file: string) { file == "" || file[|file|-1] == '\n' }

  /** What follows the last newline. */
  function Torn(file: string): (t: string)
    ensures '\n' !in t
    decreases |file|
  {
    if '\n' !in file then file else Torn(file[FirstNewline(file)+1..])
  }

  lemma FirstNewlineOf(l: string, rest: string)
    requires '\n' !in l
    ensures '\n' in l + "\n" + rest && FirstNewline(l + "\n" + rest) == |l|
    ensures (l + "\n" + rest)[..|l|] == l && (l + "\n" + rest)[|l|+1..] == rest
  {
    var s := l + "\n" + rest;
    assert s[|l|] == '\n';
    var i := FirstNewline(s);
    assert forall j :: 0 <= j < |l| ==> s[j] == l[j] != '\n';
    assert forall j :: 0 <= j < i ==> s[j] == s[..i][j] != '\n';
  }

  /** The walk hands over exactly the lines that were written, in order, and never the
      torn tail of a process that died writing. */
  lemma {:induction false} TheWalkFindsTheLines(lines: seq<string>, torn: string)
    requires forall l :: l in lines ==> '\n' !in l
    requires '\n' !in torn
    ensures Lines(Encoded(lines) + torn) == lines
  {
    if lines == [] {
      assert Encoded(lines) + torn == torn;
    } else {
      var rest := Encoded(lines[1..]) + torn;
      assert Encoded(lines) + torn == lines[0] + "\n" + rest;
      LineFirst(lines[0], rest);
      TheWalkFindsTheLines(lines[1..], torn);
    }
  }

  lemma FirstLine(file: string) returns (head: string, rest: string)
    requires '\n' in file
    ensures '\n' !in head && file == head + "\n" + rest
  {
    var i := FirstNewline(file);
    head, rest := file[..i], file[i+1..];
  }

  lemma TornAfter(l: string, rest: string)
    requires '\n' !in l
    ensures Torn(l + "\n" + rest) == Torn(rest) && Torn(l) == l
  {
    FirstNewlineOf(l, rest);
  }

  /** A line appended to a file that ends inside one joins it: the walk finds what was torn
      and the line as one. */
  lemma {:induction false} AppendedLineJoinsTheTorn(file: string, l: string)
    requires '\n' !in l
    ensures Lines(file + l + "\n") == Lines(file) + [Torn(file) + l]
    decreases |file|
  {
    hide *;
    if '\n' !in file {
      TornAfter(file, "");
      NoLines("");
      NoLines(file);
      LineFirst(file + l, "");
      assert file + l + "\n" == (file + l) + "\n" + "";
    } else {
      var head, rest := FirstLine(file);
      assert file + l + "\n" == head + "\n" + (rest + l + "\n");
      LineFirst(head, rest);
      LineFirst(head, rest + l + "\n");
      TornAfter(head, rest);
      AppendedLineJoinsTheTorn(rest, l);
    }
  }

  /** A file of complete lines has no torn tail, and any other has one. */
  lemma {:induction false} NothingTorn(file: string)
    ensures Torn(file) == "" <==> Complete(file)
    decreases |file|
  {
    if '\n' !in file {
    } else {
      hide FirstNewline;
      NothingTorn(file[FirstNewline(file)+1..]);
    }
  }

  lemma NoLines(file: string)
    requires '\n' !in file
    ensures Lines(file) == []
  {
  }

  lemma LineFirst(l: string, rest: string)
    requires '\n' !in l
    ensures Lines(l + "\n" + rest) == [l] + Lines(rest)
  {
    FirstNewlineOf(l, rest);
  }

  // ---------------------------------------------------------------- records

  /** How a record is written on a line and read back. */
  datatype Codec = Codec(encode: Record -> string, decode: string -> Option<Record>)

  ghost predicate Faithful(codec: Codec) {
    forall r: Record :: '\n' !in codec.encode(r) && codec.decode(codec.encode(r)) == Some(r)
  }

  /** The records of the lines that parse, in file order. */
  function Parsed(lines: seq<string>, decode: string -> Option<Record>): seq<Record> {
    if lines == [] then []
    else
      var rs := Parsed(lines[..|lines|-1], decode);
      var op := decode(lines[|lines|-1]);
      if op.None? then rs else rs + [op.value]
  }

  function CountBad(lines: seq<string>, decode: string -> Option<Record>): (bad: nat)
    ensures bad + |Parsed(lines, decode)| == |lines|
  {
    if lines == [] then 0
    else CountBad(lines[..|lines|-1], decode) + (if decode(lines[|lines|-1]).None? then 1 else 0)
  }

  function FileRecords(file: string, codec: Codec): seq<Record> { Parsed(Lines(file), codec.decode) }

  function FileBad(file: string, codec: Codec): nat { CountBad(Lines(file), codec.decode) }

  lemma {:induction false} ParsedBack(rs: seq<Record>, codec: Codec)
    requires Faithful(codec)
    ensures var lines := seq(|rs|, i requires 0 <= i < |rs| => codec.encode(rs[i]));
            Parsed(lines, codec.decode) == rs && CountBad(lines, codec.decode) == 0
  {
    if rs == [] {
    } else {
      var init, n := rs[..|rs|-1], |rs|;
      var lines := seq(n, i requires 0 <= i < n => codec.encode(rs[i]));
      assert lines[..n-1] == seq(n-1, i requires 0 <= i < n-1 => codec.encode(init[i]));
      ParsedBack(init, codec);
      assert codec.decode(lines[n-1]) == Some(rs[n-1]);
    }
  }

  /** What was recorded is what is read: any records, written one to a line and followed
      by any torn tail, come back as they were, with no line refused. */
  lemma FileRoundTrip(rs: seq<Record>, torn: string, codec: Codec)
    requires Faithful(codec) && '\n' !in torn
    ensures var lines := seq(|rs|, i requires 0 <= i < |rs| => codec.encode(rs[i]));
            FileRecords(Encoded(lines) + torn, codec) == rs && FileBad(Encoded(lines) + torn, codec) == 0
  {
    var lines := seq(|rs|, i requires 0 <= i < |rs| => codec.encode(rs[i]));
    TheWalkFindsTheLines(lines, torn);
    ParsedBack(rs, codec);
  }

  /** ReadBytes: from a position, one line without its newline and where the next one
      starts, or the end of the file. */
  method ReadLine(file: string, at: nat) returns (line: string, next: nat, eof: bool)
    requires at <= |file|
    ensures eof <==> '\n' !in file[at..]
    ensures !eof ==> '\n' !in line && at < next <= |file| && file[at..] == line + "\n" + file[next..]
  {
    var end := at;
    while end < |file| && file[end] != '\n'
      invariant at <= end <= |file|
      invariant '\n' !in file[at..end]
    {
      end := end + 1;
    }
    line, next, eof := file[at..end], end, end == |file|;
    if !eof {
      next := end + 1;
      assert file[at..][end - at] == '\n';
    }
  }

  /** eachRecord: reads to the size the file had, line by line. */
  method EachRecord(file: string) returns (lines: seq<string>)
    ensures lines == Lines(file)
  {
    hide Lines, FirstNewline;
    assert file[0..] == file;
    lines := [];
    var at := 0;
    while true
      invariant 0 <= at <= |file|
      invariant Lines(file) == lines + Lines(file[at..])
      decreases |file| - at
    {
      var line, next, eof := ReadLine(file, at);
      if eof {
        NoLines(file[at..]);
        return;
      }
      LineFirst(line, file[next..]);
      lines := lines + [line];
      at := next;
    }
  }

  // ---------------------------------------------------------------- the first pass

  datatype OplogScan = OplogScan(restores: seq<RestorePoint>, highest: nat, records: nat, bad: nat)

  ghost function Scanned(lines: seq<string>, decode: string -> Option<Record>): OplogScan {
    var rs := Parsed(lines, decode);
    OplogScan(Restores(rs), Highest(rs), |rs|, CountBad(lines, decode))
  }

  lemma ScannedOneMore(lines: seq<string>, i: nat, decode: string -> Option<Record>)
    requires i < |lines|
    ensures var was, op := Scanned(lines[..i], decode), decode(lines[i]);
            Scanned(lines[..i+1], decode) ==
            if op.None? then was.(bad := was.bad + 1)
            else OplogScan(
                   if op.value.op.Restore?
                   then was.restores + [RestorePoint(op.value.revision, op.value.op.to, op.value.op.from)]
                   else was.restores,
                   if op.value.revision > was.highest then op.value.revision else was.highest,
                   was.records + 1,
                   was.bad)
  {
    assert lines[..i+1][..i] == lines[..i];
    if decode(lines[i]).Some? {
      Snoc(Parsed(lines[..i], decode), decode(lines[i]).value);
    }
  }

  /** The scan's loop over the lines. */
  method ScanLines(lines: seq<string>, decode: string -> Option<Record>) returns (ok: bool, out: OplogScan)
    ensures ok <==> Ascending(Scanned(lines, decode).restores)
    ensures ok ==> out == Scanned(lines, decode)
  {
    hide *;
    NothingScanned(decode);
    out := OplogScan([], 0, 0, 0);
    assert lines[..0] == [] && lines[..|lines|] == lines;
    for i := 0 to |lines|
      invariant Ascending(out.restores)
      invariant out == Scanned(lines[..i], decode)
    {
      ScannedOneMore(lines, i, decode);
      var op := decode(lines[i]);
      if op.None? {
        out := out.(bad := out.bad + 1);
        continue;
      }
      var r := op.value;
      out := out.(records := out.records + 1);
      if r.revision > out.highest {
        out := out.(highest := r.revision);
      }
      if r.op.Restore? {
        var n := |out.restores|;
        AscendingSoFar(out.restores, RestorePoint(r.revision, r.op.to, r.op.from));
        if n > 0 && r.revision <= out.restores[n-1].stamp {
          RefusedForItsOrder(lines, i + 1, decode);
          return false, out;
        }
        out := out.(restores := out.restores + [RestorePoint(r.revision, r.op.to, r.op.from)]);
      }
    }
    ok := true;
  }

  /** scanOplog: refuses a file whose Restore records are out of stamp order, and
      otherwise reports what replay and the tool need to know first. */
  method ScanOplog(file: string, codec: Codec) returns (ok: bool, out: OplogScan)
    ensures ok <==> Ascending(Restores(FileRecords(file, codec)))
    ensures ok ==> out == OplogScan(Restores(FileRecords(file, codec)), Highest(FileRecords(file, codec)),
                                    |FileRecords(file, codec)|, FileBad(file, codec))
  {
    hide Lines, Restores, Highest, Parsed, CountBad, Ascending;
    var lines := EachRecord(file);
    ok, out := ScanLines(lines, codec.decode);
  }

  lemma NothingScanned(decode: string -> Option<Record>)
    ensures Scanned([], decode) == OplogScan([], 0, 0, 0) && Ascending([])
  {
  }

  lemma AscendingSoFar(rs: seq<RestorePoint>, p: RestorePoint)
    requires Ascending(rs)
    ensures Ascending(rs + [p]) <==> rs == [] || rs[|rs|-1].stamp < p.stamp
  {
    assert Ascending(rs + [p]) && rs != [] ==> (rs + [p])[|rs|-1].stamp < (rs + [p])[|rs|].stamp;
  }

  lemma RefusedForItsOrder(lines: seq<string>, i: nat, decode: string -> Option<Record>)
    requires i <= |lines|
    requires !Ascending(Scanned(lines[..i], decode).restores)
    ensures !Ascending(Scanned(lines, decode).restores)
  {
    ParsedPrefix(lines, i, decode);
    var some, all := Restores(Parsed(lines[..i], decode)), Restores(Parsed(lines, decode));
    var a, b :| 0 <= a < b < |some| && some[a].stamp >= some[b].stamp;
    assert all[a] == some[a] && all[b] == some[b];
  }

  lemma {:induction false} ParsedPrefix(lines: seq<string>, i: nat, decode: string -> Option<Record>)
    requires i <= |lines|
    ensures Restores(Parsed(lines[..i], decode)) <= Restores(Parsed(lines, decode))
  {
    if i == |lines| {
      assert lines[..i] == lines;
    } else {
      var init := lines[..|lines|-1];
      assert init[..i] == lines[..i];
      ParsedPrefix(init, i, decode);
      var op := decode(lines[|lines|-1]);
      if op.Some? {
        Snoc(Parsed(init, decode), op.value);
      }
    }
  }

  // ---------------------------------------------------------------- standing

  /** undoneBy: the standing restore whose range holds a revision, if any. */
  method UndoneBy(force: seq<RestorePoint>, rev: nat) returns (p: Option<RestorePoint>)
    ensures p.Some? <==> Held(force, rev)
    ensures p.Some? ==> p.value in force && Holds(p.value, rev)
  {
    for i := 0 to |force|
      invariant forall j :: 0 <= j < i ==> !Holds(force[j], rev)
    {
      if force[i].to < rev && rev <= force[i].from {
        assert force[i] in force && Holds(force[i], rev);
        return Some(force[i]);
      }
    }
    p := None;
  }

  /** standing: latest first, keeping each restore no kept later one undid. */
  method StandingAt(all: seq<RestorePoint>, bound: nat) returns (out: seq<RestorePoint>)
    ensures out == Standing(Below(all, BoundOf(bound)))
  {
    out := [];
    var i := |all|;
    assert all[i..] == [];
    while i > 0
      invariant 0 <= i <= |all|
      invariant out == Standing(Below(all[i..], BoundOf(bound)))
    {
      i := i - 1;
      var r := all[i];
      assert all[i..][0] == r && all[i..][1..] == all[i+1..];
      if bound != 0 && r.stamp > bound {
        continue;
      }
      assert Below(all[i..], BoundOf(bound))[1..] == Below(all[i+1..], BoundOf(bound));
      var held := UndoneBy(out, r.stamp);
      if held.None? {
        out := out + [r];
      }
    }
    assert all[0..] == all;
  }

  // ---------------------------------------------------------------- appending

  lemma AWholeLineEndsThere(s: string)
    ensures Complete(s + "\n")
  {
  }

  /** What a walk gains when a record is appended: the record, or what the torn tail and
      the record read as together, which may be nothing. */
  function Gained(file: string, codec: Codec, r: Record): seq<Record> {
    var read := codec.decode(Torn(file) + codec.encode(r));
    if read.Some? then [read.value] else []
  }

  /** An append changes no record already there. On a file of complete lines it adds its
      own at the end; behind a torn tail it makes one line of both, and where that reads
      as no record there is one bad line more. Either way the file ends whole. */
  lemma AppendedRecordIsLast(file: string, codec: Codec, r: Record)
    requires Faithful(codec)
    ensures var now, gained := file + codec.encode(r) + "\n", Gained(file, codec, r);
            && Complete(now)
            && FileRecords(now, codec) == FileRecords(file, codec) + gained
            && FileBad(now, codec) + |gained| == FileBad(file, codec) + 1
            && (Complete(file) ==> gained == [r])
  {
    hide Lines, Torn, Complete;
    AppendedLineJoinsTheTorn(file, codec.encode(r));
    Snoc(Lines(file), Torn(file) + codec.encode(r));
    NothingTorn(file);
    AWholeLineEndsThere(file + codec.encode(r));
    if Complete(file) {
      assert "" + codec.encode(r) == codec.encode(r);
    }
  }

  /** FileSink: the open file records are appended to. `log` and `bad` are what a walk
      of the file finds: its records in order, and how many lines are not one. */
  class FileSink {
    var file: string
    const codec: Codec
    ghost var log: seq<Record>
    ghost var bad: nat

    ghost predicate Valid()
      reads this
    {
      Faithful(codec) && log == FileRecords(file, codec) && bad == FileBad(file, codec)
    }

    constructor (file: string, codec: Codec)
      requires Faithful(codec)
      ensures Valid() && this.file == file && this.codec == codec
    {
      this.file, this.codec := file, codec;
      this.log, this.bad := FileRecords(file, codec), FileBad(file, codec);
    }

    /** Appends one record, or nothing when the volume refuses it. */
    method Write(r: Record, accepted: bool) returns (ok: bool)
      requires Valid()
      modifies this
      ensures Valid() && ok == accepted
      ensures Appends(old(file), old(log), old(bad), if ok then Some(r) else None)
    {
      if !accepted {
        return false;
      }
      AppendedRecordIsLast(file, codec, r);
      log, bad := log + Gained(file, codec, r), bad + 1 - |Gained(file, codec, r)|;
      file := file + codec.encode(r) + "\n";
      ok := true;
    }

    /** The file is as it was with one record appended, or none; and what a walk finds is
        what it found and what it gained. */
    ghost predicate Appends(was: string, wasLog: seq<Record>, wasBad: nat, r: Option<Record>)
      reads this
    {
      if r.None? then file == was && log == wasLog && bad == wasBad
      else
        && file == was + codec.encode(r.value) + "\n" && Complete(file)
        && log == wasLog + Gained(was, codec, r.value)
        && bad + |Gained(was, codec, r.value)| == wasBad + 1
        && (Complete(was) ==> log == wasLog + [r.value] && bad == wasBad)
    }
  }
}
