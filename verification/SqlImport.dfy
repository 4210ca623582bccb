/** Writing a database as text and reading it back statement by statement: dump and import of
    SQLiteConfiguration (src/libs/config/sqlite.cpp). */
module SqlImport {
  import opened CStrings
  import opened MapFacts

  /** sizeof(line) - 1 */
  const LINE: nat := 4095

  // ---- Splitting ----

  /** The last two of the first n characters end a statement; n has to be more than two. */
  predicate EndsAt(s: string, n: nat) {
    2 < n <= |s| && s[n - 2] == ';' && s[n - 1] == '\n'
  }

  /** How many characters the inner loop reads if it has read i of them. */
  function ReadLength(s: string, i: nat): (n: nat)
    requires i <= |s| && i <= LINE
    ensures i <= n <= |s| && n <= LINE
    ensures i < |s| && i < LINE ==> n > i
    decreases LINE - i
  {
    if i == |s| || i == LINE then i
    else if EndsAt(s, i + 1) then i + 1
    else ReadLength(s, i + 1)
  }

  /** The pieces that the outer loop reads one after the other. */
  function Chunks(s: string): seq<string>
    decreases |s|
  {
    if s == "" then [] else
      var n := ReadLength(s, 0);
      [s[..n]] + Chunks(s[n..])
  }

  /** What is passed to the database for a piece: nothing if it starts with a terminator. */
  function Passed(chunk: string): seq<string> {
    var n := Length(chunk);
    if n == 0 then [] else [chunk[..n]]
  }

  function AllPassed(chunks: seq<string>): seq<string> {
    if chunks == [] then [] else Passed(chunks[0]) + AllPassed(chunks[1..])
  }

  /** The statements executed, up to the first that the database refuses. */
  function Executed(done: seq<string>, todo: seq<string>, accepts: seq<string> -> bool): (r: (seq<string>, bool))
    decreases |todo|
  {
    if todo == [] then (done, true)
    else if accepts(done + [todo[0]]) then Executed(done + [todo[0]], todo[1..], accepts)
    else (done + [todo[0]], false)
  }

  function Concat(ss: seq<string>): string {
    if ss == [] then "" else ss[0] + Concat(ss[1..])
  }

  // ---- What is not lost ----

  /** The pieces of a file put together are the file. */
  lemma {:induction false} ChunksConcat(s: string)
    ensures Concat(Chunks(s)) == s
    decreases |s|
  {
    if s != "" {
      var n := ReadLength(s, 0);
      ChunksConcat(s[n..]);
      assert s == s[..n] + s[n..];
    }
  }

  lemma {:induction false} AllPassedPlain(chunks: seq<string>)
    requires forall c :: c in chunks ==> c != "" && NUL !in c
    ensures AllPassed(chunks) == chunks
    decreases |chunks|
  {
    if chunks != [] {
      assert forall d :: d in chunks[1..] ==> d in chunks;
      AllPassedPlain(chunks[1..]);
      var c := chunks[0];
      assert c in chunks && c[..|c|] == c;
      assert chunks == [c] + chunks[1..];
    }
  }

  lemma {:induction false} ChunksPlain(s: string)
    requires NUL !in s
    ensures forall c :: c in Chunks(s) ==> c != "" && NUL !in c
    decreases |s|
  {
    if s != "" {
      ChunksPlain(s[ReadLength(s, 0)..]);
    }
  }

  /** Of a file without terminators everything reaches the database, in order. */
  lemma NothingLost(s: string)
    requires NUL !in s
    ensures AllPassed(Chunks(s)) == Chunks(s) && Concat(AllPassed(Chunks(s))) == s
  {
    ChunksPlain(s);
    AllPassedPlain(Chunks(s));
    ChunksConcat(s);
  }

  /** A text that the splitter keeps together: it ends in a semicolon and a line break after at least one other
      character, and fits into the buffer, without such an end before. */
  predicate Whole(st: string) {
    EndsAt(st, |st|) && |st| <= LINE && forall n :: 0 <= n < |st| ==> !EndsAt(st, n)
  }

  lemma {:induction false} ReadWhole(st: string, rest: string, i: nat)
    requires i < |st| <= LINE && EndsAt(st, |st|) && forall n :: i < n < |st| ==> !EndsAt(st, n)
    ensures ReadLength(st + rest, i) == |st|
    decreases |st| - i
  {
    var s := st + rest;
    assert forall n :: 0 <= n <= |st| ==> (EndsAt(s, n) <==> EndsAt(st, n));
    if i + 1 < |st| { ReadWhole(st, rest, i + 1); }
  }

  lemma {:induction false} ReadStops(s: string, i: nat, m: nat)
    requires i <= |s| && i <= LINE && i < m < ReadLength(s, i)
    ensures !EndsAt(s, m)
    decreases LINE - i
  {
    if i + 1 < m { ReadStops(s, i + 1, m); }
  }

  /** A file made of statements that end in a semicolon and a line break is split into exactly these if and only
      if each of them is kept together. */
  lemma {:induction false} SplitExact(ss: seq<string>)
    requires forall st :: st in ss ==> EndsAt(st, |st|)
    ensures Chunks(Concat(ss)) == ss <==> forall st :: st in ss ==> Whole(st)
    decreases |ss|
  {
    if ss != [] {
      var st, rest := ss[0], Concat(ss[1..]);
      assert ss == [st] + ss[1..] && st in ss;
      SplitExact(ss[1..]);
      SplitFirst(st, rest);
      var n := ReadLength(st + rest, 0);
      if Whole(st) {
        assert (st + rest)[..n] == st && (st + rest)[n..] == rest;
      } else {
        assert Chunks(st + rest)[0] == (st + rest)[..n];
      }
    }
  }

  /** What is kept together: at most 4095 characters, at least three, with a semicolon and a line break at the end and
      none before but perhaps at the very beginning. */
  lemma WholeMeans(st: string)
    ensures Whole(st) <==>
            && 3 <= |st| <= 4095 && st[|st| - 2] == ';' && st[|st| - 1] == '\n'
            && forall i :: 1 <= i < |st| - 2 && st[i] == ';' ==> st[i + 1] != '\n'
  {
    forall i | 1 <= i < |st| - 1 ensures EndsAt(st, i + 2) <==> st[i] == ';' && st[i + 1] == '\n' {
    }
    forall n | 3 <= n < |st| ensures EndsAt(st, n) <==> st[n - 2] == ';' && st[n - 2 + 1] == '\n' {
    }
  }

  lemma SplitFirst(st: string, rest: string)
    requires EndsAt(st, |st|)
    ensures Whole(st) <==> ReadLength(st + rest, 0) == |st|
  {
    if Whole(st) {
      ReadWhole(st, rest, 0);
    } else if ReadLength(st + rest, 0) == |st| {
      var s := st + rest;
      assert forall n :: 0 <= n <= |st| ==> (EndsAt(s, n) <==> EndsAt(st, n));
      forall n | 0 <= n < |st| ensures !EndsAt(st, n) {
        if n > 0 { ReadStops(s, 0, n); }
      }
    }
  }

  // ---- import ----

  /** The inner loop: reads into the buffer up to the end of a statement, of the buffer or of the file. */
  method ReadLine(file: string, start: nat, line: array<char>) returns (i: nat, eof: bool)
    requires start <= |file| && line.Length == LINE + 1
    modifies line
    ensures i == ReadLength(file[start..], 0) && start + i <= |file|
    ensures eof ==> start + i == |file|
    ensures !eof ==> i > 0
    ensures forall k :: 0 <= k < i ==> line[k] == file[start + k]
    ensures line[i] == NUL
  {
    hide EndsAt;
    ghost var s := file[start..];
    i, eof := 0, false;
    while !eof && i < LINE
      invariant 0 <= i <= LINE && i <= |s| && (eof ==> i == |s|)
      invariant forall k :: 0 <= k < i ==> line[k] == file[start + k]
      invariant ReadLength(s, 0) == ReadLength(s, i)
      decreases !eof, LINE - i
    {
      if start + i < |file| {
        line[i] := file[start + i];
        i := i + 1;
        EndSeen(s, i);
        if i > 2 && line[i - 1] == '\n' && line[i - 2] == ';' {
          break;
        }
      } else {
        eof := true;
      }
    }
    line[i] := NUL;
  }

  lemma EndSeen(s: string, i: nat)
    requires 0 < i <= |s| && i <= LINE
    ensures EndsAt(s, i) <==> i > 2 && s[i - 1] == '\n' && s[i - 2] == ';'
    ensures ReadLength(s, i - 1) == if EndsAt(s, i) then i else ReadLength(s, i)
  {
  }

  /** import, for a file that could be opened: what was executed, and false where it throws. */
  method Import(file: string, accepts: seq<string> -> bool) returns (ok: bool, executed: seq<string>)
    ensures (executed, ok) == Executed([], AllPassed(Chunks(file)), accepts)
  {
    hide AllPassed, Chunks, Executed, ReadLength, Passed;
    var line := new char[LINE + 1];
    var pos, eof := 0, false;
    executed := [];
    TailFrom(file, 0, 0);
    while !eof
      invariant 0 <= pos <= |file| && (eof ==> pos == |file|)
      invariant Executed([], AllPassed(Chunks(file)), accepts) ==
                Executed(executed, AllPassed(Chunks(file[pos..])), accepts)
      decreases !eof, |file| - pos
    {
      ghost var s := file[pos..];
      var i;
      i, eof := ReadLine(file, pos, line);
      TailFrom(file, pos, i);
      if line[0] != NUL {
        var n := StringLength(line, i);
        PassedPiece(s, i, line[..], n);
        ExecuteOne(executed, s, i, accepts);
        assert line[..][..n] == line[..n];
        executed := executed + [line[..n]];
        if !accepts(executed) {
          return false, executed;
        }
      } else {
        SkipOne(executed, s, i, line[..], accepts);
      }
      pos := pos + i;
    }
    NothingLeft(executed, accepts);
    assert file[pos..] == "";
    ok := true;
  }

  lemma TailFrom(file: string, at: nat, i: nat)
    requires at + i <= |file|
    ensures file[at..][i..] == file[at + i..] && file[0..] == file
    ensures forall k :: 0 <= k < i ==> file[at..][k] == file[at + k]
  {
  }

  lemma NothingLeft(done: seq<string>, accepts: seq<string> -> bool)
    ensures Executed(done, AllPassed(Chunks("")), accepts) == (done, true)
  {
  }

  /** strlen of the buffer. */
  method StringLength(line: array<char>, i: nat) returns (n: nat)
    requires i < line.Length && line[i] == NUL
    ensures n <= i && line[n] == NUL && forall k :: 0 <= k < n ==> line[k] != NUL
  {
    n := 0;
    while line[n] != NUL
      invariant n <= i && forall k :: 0 <= k < n ==> line[k] != NUL
      decreases i - n
    {
      n := n + 1;
    }
  }

  lemma {:induction false} LengthOf(s: string, n: nat)
    requires n <= |s| && (forall k :: 0 <= k < n ==> s[k] != NUL) && (n < |s| ==> s[n] == NUL)
    ensures Length(s) == n
  {
    if n > 0 { LengthOf(s[1..], n - 1); }
  }

  lemma PassedPiece(s: string, i: nat, line: seq<char>, n: nat)
    requires 0 < i <= |s| && n <= i < |line| && (forall k :: 0 <= k < i ==> line[k] == s[k]) && line[i] == NUL
    requires line[n] == NUL && (forall k :: 0 <= k < n ==> line[k] != NUL) && n > 0
    ensures Passed(s[..i]) == [line[..n]]
  {
    LengthOf(s[..i], n);
    assert s[..i][..n] == line[..n];
  }

  lemma ExecuteOne(done: seq<string>, s: string, i: nat, accepts: seq<string> -> bool)
    requires s != "" && i == ReadLength(s, 0) && |Passed(s[..i])| == 1
    ensures var st := Passed(s[..i])[0];
            Executed(done, AllPassed(Chunks(s)), accepts) ==
            if accepts(done + [st]) then Executed(done + [st], AllPassed(Chunks(s[i..])), accepts)
                else (done + [st], false)
  {
    var st, rest := Passed(s[..i])[0], AllPassed(Chunks(s[i..]));
    assert Chunks(s)[0] == s[..i] && Chunks(s)[1..] == Chunks(s[i..]);
    assert ([st] + rest)[0] == st && ([st] + rest)[1..] == rest;
    assert AllPassed(Chunks(s)) == [st] + rest;
  }

  lemma SkipOne(done: seq<string>, s: string, i: nat, line: seq<char>, accepts: seq<string> -> bool)
    requires i == ReadLength(s, 0) && i < |line| && line[0] == NUL && forall k :: 0 <= k < i ==> line[k] == s[k]
    ensures Executed(done, AllPassed(Chunks(s)), accepts) == Executed(done, AllPassed(Chunks(s[i..])), accepts)
  {
    if s != "" {
      assert s[..i][0] == NUL;
      assert Chunks(s)[0] == s[..i] && Chunks(s)[1..] == Chunks(s[i..]);
      ConcatEmpty(AllPassed(Chunks(s[i..])));
    }
  }

  // ---- dump ----

  /** A table: the statement that makes it, and those that fill it. */
  datatype Table = Table(sql: string, rows: seq<string>)

  const BEGIN := "BEGIN TRANSACTION;\n"
  const COMMIT := "COMMIT;\n"

  function Ended(texts: seq<string>): seq<string> {
    if texts == [] then [] else [texts[0] + ";\n"] + Ended(texts[1..])
  }

  function TableTexts(tables: seq<Table>): seq<string> {
    if tables == [] then [] else [tables[0].sql] + tables[0].rows + TableTexts(tables[1..])
  }

  /** The statements of a dump. */
  function Dumped(tables: seq<Table>): seq<string> {
    [BEGIN] + Ended(TableTexts(tables)) + [COMMIT]
  }

  lemma {:induction false} ConcatAppend(a: seq<string>, b: seq<string>)
    ensures Concat(a + b) == Concat(a) + Concat(b)
    decreases |a|
  {
    if a == [] {
      ConcatEmpty(b);
      ConcatEmpty(Concat(b));
    } else {
      assert (a + b)[0] == a[0] && (a + b)[1..] == a[1..] + b;
      ConcatAppend(a[1..], b);
      assert a[0] + (Concat(a[1..]) + Concat(b)) == a[0] + Concat(a[1..]) + Concat(b);
    }
  }

  lemma {:induction false} EndedAppend(a: seq<string>, b: seq<string>)
    ensures Ended(a + b) == Ended(a) + Ended(b)
    decreases |a|
  {
    if a == [] {
      ConcatEmpty(b);
      ConcatEmpty(Ended(b));
    } else {
      assert (a + b)[0] == a[0] && (a + b)[1..] == a[1..] + b;
      EndedAppend(a[1..], b);
    }
  }

  lemma TableStep(texts: seq<string>, tables: seq<Table>, i: nat)
    requires i < |tables|
    ensures texts + TableTexts(tables[i..]) == texts + ([tables[i].sql] + tables[i].rows) + TableTexts(tables[i + 1..])
  {
    var more := [tables[i].sql] + tables[i].rows;
    assert tables[i..][0] == tables[i] && tables[i..][1..] == tables[i + 1..];
    assert texts + (more + TableTexts(tables[i + 1..])) == texts + more + TableTexts(tables[i + 1..]);
  }

  lemma TableEnds(texts: seq<string>, tables: seq<Table>)
    ensures texts + TableTexts(tables[|tables|..]) == texts
    ensures [] + TableTexts(tables[0..]) == TableTexts(tables)
    ensures BEGIN + Concat(Ended([])) == BEGIN
  {
    assert tables[0..] == tables;
    ConcatEmpty(texts);
    ConcatEmpty(TableTexts(tables));
  }

  /** dump: what it writes to the file. */
  method Dump(tables: seq<Table>) returns (f: string)
    ensures f == Concat(Dumped(tables))
  {
    hide Concat, Ended, TableTexts, Dumped;
    f := BEGIN;
    ghost var texts: seq<string> := [];
    var i := 0;
    TableEnds([], tables);
    while i < |tables|
      invariant 0 <= i <= |tables| && texts + TableTexts(tables[i..]) == TableTexts(tables)
      invariant f == BEGIN + Concat(Ended(texts))
    {
      TableStep(texts, tables, i);
      f := f + tables[i].sql + ";\n";
      var g := DumpTable(tables[i].rows);
      f := f + g;
      TableWritten(texts, tables[i], f);
      texts := texts + ([tables[i].sql] + tables[i].rows);
      i := i + 1;
    }
    TableEnds(texts, tables);
    f := f + COMMIT;
    DumpWritten(tables, f);
  }

  lemma TableWritten(texts: seq<string>, t: Table, f: string)
    requires f == BEGIN + Concat(Ended(texts)) + t.sql + ";\n" + Concat(Ended(t.rows))
    ensures f == BEGIN + Concat(Ended(texts + ([t.sql] + t.rows)))
  {
    hide Ended, Concat;
    EndedAppend(texts, [t.sql] + t.rows);
    ConcatAppend(Ended(texts), Ended([t.sql] + t.rows));
    EndedFirst(t.sql, t.rows);
    Regrouped(BEGIN, Concat(Ended(texts)), t.sql, ";\n", Concat(Ended(t.rows)));
  }

  lemma EndedFirst(s: string, ss: seq<string>)
    ensures Concat(Ended([s] + ss)) == s + ";\n" + Concat(Ended(ss))
  {
    assert ([s] + ss)[0] == s && ([s] + ss)[1..] == ss;
    var e, es := s + ";\n", Ended(ss);
    assert ([e] + es)[0] == e && ([e] + es)[1..] == es;
  }

  lemma Regrouped(a: string, b: string, c: string, d: string, e: string)
    ensures a + b + c + d + e == a + (b + (c + d + e))
  {
  }

  lemma DumpWritten(tables: seq<Table>, f: string)
    requires f == BEGIN + Concat(Ended(TableTexts(tables))) + COMMIT
    ensures f == Concat(Dumped(tables))
  {
    var es := Ended(TableTexts(tables));
    ConcatAppend([BEGIN] + es, [COMMIT]);
    ConcatAppend([BEGIN], es);
    assert [BEGIN][1..] == [] && [COMMIT][1..] == [];
    assert Concat([BEGIN]) == BEGIN && Concat([COMMIT]) == COMMIT;
  }

  /** dump_table: one line for each row. */
  method DumpTable(rows: seq<string>) returns (f: string)
    ensures f == Concat(Ended(rows))
  {
    f := "";
    var i := 0;
    assert rows[..0] == [];
    while i < |rows|
      invariant 0 <= i <= |rows| && f == Concat(Ended(rows[..i]))
    {
      TakeSnoc(rows, i);
      EndedAppend(rows[..i], [rows[i]]);
      ConcatAppend(Ended(rows[..i]), Ended([rows[i]]));
      assert [rows[i]][1..] == [] && Ended([rows[i]]) == [rows[i] + ";\n"];
      assert [rows[i] + ";\n"][1..] == [] && Concat([rows[i] + ";\n"]) == rows[i] + ";\n";
      f := f + rows[i] + ";\n";
      i := i + 1;
    }
    TakeAll(rows);
  }

  /** A statement text that survives dumping and importing: short enough, and without a semicolon before a line
      break (unless these are its first two characters). */
  predicate Plain(text: string) {
    |text| + 2 <= LINE && forall n :: 0 <= n <= |text| ==> !EndsAt(text, n)
  }

  lemma PlainIsWhole(text: string)
    requires text != ""
    ensures EndsAt(text + ";\n", |text| + 2)
    ensures Whole(text + ";\n") <==> Plain(text)
  {
    var st := text + ";\n";
    assert forall n :: 0 <= n <= |text| ==> (EndsAt(st, n) <==> EndsAt(text, n));
    assert !EndsAt(st, |text| + 1);
  }

  lemma {:induction false} EndedWhole(texts: seq<string>)
    requires forall t :: t in texts ==> t != ""
    ensures forall st :: st in Ended(texts) ==> EndsAt(st, |st|)
    ensures (forall st :: st in Ended(texts) ==> Whole(st)) <==> forall t :: t in texts ==> Plain(t)
    decreases |texts|
  {
    if texts != [] {
      assert texts == [texts[0]] + texts[1..] && texts[0] in texts;
      assert forall t :: t in texts[1..] ==> t in texts;
      EndedWhole(texts[1..]);
      PlainIsWhole(texts[0]);
      assert texts[0] + ";\n" in Ended(texts);
      assert forall st :: st in Ended(texts) <==> st == texts[0] + ";\n" || st in Ended(texts[1..]);
    }
  }

  lemma FrameWhole()
    ensures Whole(BEGIN) && Whole(COMMIT)
  {
    PlainIsWhole("BEGIN TRANSACTION");
    PlainIsWhole("COMMIT");
    assert BEGIN == "BEGIN TRANSACTION" + ";\n" && COMMIT == "COMMIT" + ";\n";
  }

  /** The pieces of a dump are its statements if and only if each of their texts is plain. */
  lemma DumpSplits(tables: seq<Table>)
    requires forall t :: t in TableTexts(tables) ==> t != ""
    ensures Chunks(Concat(Dumped(tables))) == Dumped(tables) <==> forall t :: t in TableTexts(tables) ==> Plain(t)
  {
    hide EndsAt, Whole, Plain, Chunks, Concat, TableTexts;
    var texts := TableTexts(tables);
    EndedWhole(texts);
    FrameWhole();
    FrameEnds();
    assert forall st :: st in Dumped(tables) <==> st == BEGIN || st == COMMIT || st in Ended(texts);
    SplitExact(Dumped(tables));
  }

  lemma PassedShorter(c: string)
    requires c != ""
    ensures |Concat(Passed(c))| <= |c| && (|Concat(Passed(c))| == |c| <==> NUL !in c)
    ensures NUL !in c ==> Passed(c) == [c]
  {
    var n := Length(c);
    if NUL !in c { LengthIs(c); }
    if n > 0 {
      assert [c[..n]][1..] == [] && Concat([c[..n]]) == c[..n] + Concat([]);
      assert c[..|c|] == c;
    }
  }

  /** What is passed is shorter than what was read, unless there is no terminator. */
  lemma {:induction false} AllPassedShorter(chunks: seq<string>)
    requires forall c :: c in chunks ==> c != ""
    ensures |Concat(AllPassed(chunks))| <= |Concat(chunks)|
    ensures |Concat(AllPassed(chunks))| == |Concat(chunks)| <==> forall c :: c in chunks ==> NUL !in c
    decreases |chunks|
  {
    hide Passed;
    if chunks != [] {
      assert chunks == [chunks[0]] + chunks[1..] && chunks[0] in chunks;
      assert forall c :: c in chunks[1..] ==> c in chunks;
      PassedShorter(chunks[0]);
      AllPassedShorter(chunks[1..]);
      ConcatAppend(Passed(chunks[0]), AllPassed(chunks[1..]));
    }
  }

  lemma {:induction false} ChunksNotEmpty(s: string)
    ensures forall c :: c in Chunks(s) ==> c != ""
    decreases |s|
  {
    if s != "" { ChunksNotEmpty(s[ReadLength(s, 0)..]); }
  }

  /** What is passed makes up the file if and only if it is all that was read, and there is no terminator. */
  lemma PassedIsRead(s: string, ss: seq<string>)
    requires Concat(ss) == s
    ensures AllPassed(Chunks(s)) == ss <==> Chunks(s) == ss && forall c :: c in ss ==> NUL !in c
  {
    hide Chunks, Concat, AllPassed;
    ChunksConcat(s);
    ChunksNotEmpty(s);
    AllPassedShorter(Chunks(s));
    if forall c :: c in Chunks(s) ==> NUL !in c { AllPassedPlain(Chunks(s)); }
  }

  lemma {:induction false} EndedClean(texts: seq<string>)
    ensures (forall st :: st in Ended(texts) ==> NUL !in st) <==> forall t :: t in texts ==> NUL !in t
    decreases |texts|
  {
    if texts != [] {
      EndedClean(texts[1..]);
      assert texts == [texts[0]] + texts[1..] && texts[0] in texts;
      assert forall st :: st in Ended(texts) <==> st == texts[0] + ";\n" || st in Ended(texts[1..]);
      assert NUL !in texts[0] + ";\n" <==> NUL !in texts[0];
    }
  }

  /** Importing a dump passes exactly the dumped statements to the database if and only if each of their texts is
      plain and free of terminators: a longer text is cut, and so is a value with a semicolon at the end of a line. */
  lemma DumpImports(tables: seq<Table>)
    requires forall t :: t in TableTexts(tables) ==> t != ""
    ensures AllPassed(Chunks(Concat(Dumped(tables)))) == Dumped(tables) <==>
            forall t :: t in TableTexts(tables) ==> Plain(t) && NUL !in t
  {
    hide Plain, Chunks, Concat, TableTexts, AllPassed;
    var texts := TableTexts(tables);
    DumpSplits(tables);
    EndedClean(texts);
    assert forall st :: st in Dumped(tables) <==> st == BEGIN || st == COMMIT || st in Ended(texts);
    PassedIsRead(Concat(Dumped(tables)), Dumped(tables));
  }

  /** A value with a semicolon at the end of a line: two broken statements are passed instead of one. */
  lemma CutValue()
    ensures var tables := [Table("a", ["'b;\nc'"])];
            && Dumped(tables) == [BEGIN, "a;\n", "'b;\nc';\n", COMMIT]
            && AllPassed(Chunks(Concat(Dumped(tables)))) == [BEGIN, "a;\n", "'b;\n", "c';\n", COMMIT]
  {
    hide *;
    CutDump();
    CutConcat();
    CutWhole();
    PassedWhole([BEGIN, "a;\n", "'b;\n", "c';\n", COMMIT]);
  }

  /** Statements that are kept together and have no terminator are passed as they are. */
  lemma PassedWhole(ss: seq<string>)
    requires forall st :: st in ss ==> Whole(st) && NUL !in st
    ensures AllPassed(Chunks(Concat(ss))) == ss
  {
    hide Chunks, AllPassed, Concat;
    SplitExact(ss);
    PassedIsRead(Concat(ss), ss);
  }

  lemma CutWhole()
    ensures forall st :: st in [BEGIN, "a;\n", "'b;\n", "c';\n", COMMIT] ==> Whole(st) && NUL !in st
  {
    hide Whole;
    FrameWhole();
    FrameClean();
    ShortWhole();
  }

  lemma FrameClean()
    ensures NUL !in BEGIN && NUL !in COMMIT
  {
  }

  lemma CutDump()
    ensures Dumped([Table("a", ["'b;\nc'"])]) == [BEGIN, "a;\n", "'b;\nc';\n", COMMIT]
  {
    var t := Table("a", ["'b;\nc'"]);
    assert [t][1..] == [] && [t.sql] + t.rows + [] == ["a", "'b;\nc'"];
    assert ["a", "'b;\nc'"][1..] == ["'b;\nc'"] && ["'b;\nc'"][1..] == [];
    assert "a" + ";\n" == "a;\n" && "'b;\nc'" + ";\n" == "'b;\nc';\n";
    assert Ended(["'b;\nc'"]) == ["'b;\nc';\n"];
    assert Ended(["a", "'b;\nc'"]) == ["a;\n", "'b;\nc';\n"];
  }

  lemma ShortWhole()
    ensures Whole("a;\n") && Whole("'b;\n") && Whole("c';\n")
    ensures NUL !in "a;\n" && NUL !in "'b;\n" && NUL !in "c';\n"
  {
  }

  lemma CutConcat()
    ensures Concat([BEGIN, "a;\n", "'b;\n", "c';\n", COMMIT]) == Concat([BEGIN, "a;\n", "'b;\nc';\n", COMMIT])
  {
    ConcatThree(BEGIN, "a;\n", ["'b;\n", "c';\n", COMMIT]);
    ConcatThree(BEGIN, "a;\n", ["'b;\nc';\n", COMMIT]);
    ConcatThree("'b;\n", "c';\n", [COMMIT]);
    assert ["'b;\nc';\n", COMMIT][1..] == [COMMIT];
    assert "'b;\n" + "c';\n" == "'b;\nc';\n";
  }

  lemma ConcatThree(a: string, b: string, ss: seq<string>)
    ensures Concat([a, b] + ss) == a + b + Concat(ss)
  {
    assert ([a, b] + ss)[1..] == [b] + ss && ([b] + ss)[1..] == ss;
    assert a + (b + Concat(ss)) == a + b + Concat(ss);
  }

  lemma FrameEnds()
    ensures EndsAt(BEGIN, |BEGIN|) && EndsAt(COMMIT, |COMMIT|)
  {
  }
}
