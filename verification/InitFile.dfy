/** The init file: the number of cores and the program each core starts, parsed in place. */
module InitFile {
  import opened Memory
  import opened Numbers

  const CORES: seq<char> := "CORES "

  // ---------------------------------------------------------------- the file as it is written

  /** A line of the file. */
  datatype Row = Blank | Program(index: nat, name: seq<char>)

  predicate RowOk(r: Row) {
    r.Program? ==> r.index < MAX_CORE && forall k | 0 <= k < |r.name| :: r.name[k] != '\n' && r.name[k] != '\0'
  }

  predicate RowsOk(rows: seq<Row>) {
    forall k | 0 <= k < |rows| :: RowOk(rows[k])
  }

  /** A line and the character that ends it. */
  function RowText(r: Row, end: char): seq<char> {
    match r
    case Blank => [end]
    case Program(index, name) => Text(index, false) + ([' '] + (name + [end]))
  }

  function RowsText(rows: seq<Row>, end: char): seq<char> {
    if rows == [] then [] else RowText(rows[0], end) + RowsText(rows[1..], end)
  }

  function FileText(cores: nat, rows: seq<Row>, end: char): seq<char> {
    "CORES " + (Text(cores, false) + ([end] + RowsText(rows, end)))
  }

  /** The last name a list of lines gives to a core. */
  function NameOf(rows: seq<Row>, core: nat): Option<seq<char>> {
    if rows == [] then None
    else
      var last := rows[|rows| - 1];
      if last.Program? && last.index == core then Some(last.name) else NameOf(rows[..|rows| - 1], core)
  }

  /** A core's name is that of the last line for it, and there is none without such a line. */
  lemma {:induction false} NameMeans(rows: seq<Row>, core: nat, k: nat)
    requires k < |rows| && LineFor(rows[k], core) && forall i | k < i < |rows| :: !LineFor(rows[i], core)
    ensures NameOf(rows, core) == Some(rows[k].name)
  {
    if k < |rows| - 1 {
      assert !LineFor(rows[|rows| - 1], core);
      NameMeans(rows[..|rows| - 1], core, k);
    }
  }

  lemma {:induction false} NoName(rows: seq<Row>, core: nat)
    requires forall k | 0 <= k < |rows| :: !LineFor(rows[k], core)
    ensures NameOf(rows, core) == None
  {
    if rows != [] {
      assert !LineFor(rows[|rows| - 1], core);
      NoName(rows[..|rows| - 1], core);
    }
  }

  predicate LineFor(r: Row, core: nat) {
    r.Program? && r.index == core
  }

  // ---------------------------------------------------------------- line ends become terminators

  function Cut(s: seq<char>): (r: seq<char>)
    ensures |r| == |s|
  {
    seq(|s|, i requires 0 <= i < |s| => if s[i] == '\n' then '\0' else s[i])
  }

  lemma CutConcat(a: seq<char>, b: seq<char>)
    ensures Cut(a + b) == Cut(a) + Cut(b)
  {}

  lemma CutKeeps(s: seq<char>)
    requires forall k | 0 <= k < |s| :: s[k] != '\n'
    ensures Cut(s) == s
  {}

  lemma CutNumber(x: nat)
    ensures Cut(Text(x, false)) == Text(x, false)
  {
    TextValue(x, false);
    CutKeeps(Text(x, false));
  }

  lemma CutRow(r: Row)
    requires RowOk(r)
    ensures Cut(RowText(r, '\n')) == RowText(r, '\0')
  {
    assert Cut(['\n']) == ['\0'];
    if r.Program? {
      CutNumber(r.index);
      CutKeeps(r.name);
      CutConcat(r.name, ['\n']);
      CutKeeps([' ']);
      CutConcat([' '], r.name + ['\n']);
      CutConcat(Text(r.index, false), [' '] + (r.name + ['\n']));
    }
  }

  lemma {:induction false} CutRows(rows: seq<Row>)
    requires RowsOk(rows)
    ensures Cut(RowsText(rows, '\n')) == RowsText(rows, '\0')
  {
    if rows != [] {
      CutRow(rows[0]);
      CutRows(rows[1..]);
      CutConcat(RowText(rows[0], '\n'), RowsText(rows[1..], '\n'));
    }
  }

  lemma CutFile(cores: nat, rows: seq<Row>)
    requires RowsOk(rows)
    ensures Cut(FileText(cores, rows, '\n')) == FileText(cores, rows, '\0')
  {
    assert Cut(['\n']) == ['\0'];
    CutRows(rows);
    CutConcat(['\n'], RowsText(rows, '\n'));
    CutNumber(cores);
    CutConcat(Text(cores, false), ['\n'] + RowsText(rows, '\n'));
    CutKeeps(CORES);
    CutConcat(CORES, Text(cores, false) + (['\n'] + RowsText(rows, '\n')));
  }

  /** The first loop of the parser. */
  method CutLines(file: array<char>)
    modifies file
    ensures file[..] == Cut(old(file[..]))
  {
    var p := 0;
    while p < file.Length
      invariant p <= file.Length
      invariant forall k | 0 <= k < p :: file[k] == Cut(old(file[..]))[k]
      invariant forall k | p <= k < file.Length :: file[k] == old(file[k])
    {
      if file[p] == '\n' {
        file[p] := '\0';
      }
      p := p + 1;
    }
  }

  // ---------------------------------------------------------------- strings in the file

  /** `strncmp` of n characters: zero only if they agree. */
  method Strncmp(a: seq<char>, p: nat, b: seq<char>) returns (r: int)
    requires p + |b| <= |a|
    ensures r == 0 <==> At(a, p, b)
  {
    var i := 0;
    while i < |b|
      invariant i <= |b| && a[p..p + i] == b[..i]
    {
      if a[p + i] != b[i] {
        assert a[p..p + |b|][i] != b[i];
        return 1;
      }
      assert a[p..p + i + 1] == a[p..p + i] + [a[p + i]];
      i := i + 1;
    }
    return 0;
  }

  /** The first terminator at or after p, or the end of the file. */
  function Terminator(s: seq<char>, p: nat): (r: nat)
    requires p <= |s|
    ensures p <= r <= |s|
    decreases |s| - p
  {
    if p == |s| || s[p] == '\0' then p else Terminator(s, p + 1)
  }

  lemma {:induction false} TerminatorIs(s: seq<char>, p: nat, name: seq<char>)
    requires At(s, p, name) && p + |name| < |s| && s[p + |name|] == '\0'
    requires forall i | 0 <= i < |name| :: name[i] != '\0'
    ensures Terminator(s, p) == p + |name|
    decreases |name|
  {
    if name != [] {
      assert s[p..p + |name|][0] == s[p] && s[p + 1..p + |name|] == s[p..p + |name|][1..];
      TerminatorIs(s, p + 1, name[1..]);
    }
  }

  /** The position after the next terminator. */
  method GetNextLine(file: array<char>, p: nat) returns (next: Option<nat>)
    requires p <= file.Length
    ensures next == var t := Terminator(file[..], p); if t < file.Length then Some(t + 1) else None
  {
    var q := p;
    while q < file.Length
      invariant p <= q <= file.Length && Terminator(file[..], p) == Terminator(file[..], q)
    {
      if file[q] == '\0' {
        return Some(q + 1);
      }
      q := q + 1;
    }
    return None;
  }

  /** The string that starts at p, up to a terminator before `limit`, is this one. */
  predicate StringAt(s: seq<char>, p: nat, name: seq<char>, limit: nat) {
    p + |name| < limit <= |s| && s[p..p + |name|] == name && s[p + |name|] == '\0'
      && forall k | 0 <= k < |name| :: name[k] != '\0'
  }

  /** Every core's pointer leads to the last name given to it. */
  predicate Programs(s: seq<char>, programs: seq<Option<nat>>, rows: seq<Row>, limit: nat) {
    && |programs| == MAX_CORE
    && forall c: nat | c < MAX_CORE :: ProgramIs(s, programs[c], NameOf(rows, c), limit)
  }

  predicate ProgramIs(s: seq<char>, pointer: Option<nat>, name: Option<seq<char>>, limit: nat) {
    match name
    case None => pointer.None?
    case Some(n) => pointer.Some? && StringAt(s, pointer.value, n, limit)
  }

  /** Later changes of the file leave the names before them. */
  lemma ProgramsStay(s: seq<char>, t: seq<char>, programs: seq<Option<nat>>, rows: seq<Row>, limit: nat)
    requires Programs(s, programs, rows, limit) && limit <= |s| == |t| && s[..limit] == t[..limit]
    ensures Programs(t, programs, rows, limit)
  {
    forall c: nat | c < MAX_CORE ensures ProgramIs(t, programs[c], NameOf(rows, c), limit) {
      assert ProgramIs(s, programs[c], NameOf(rows, c), limit);
      if NameOf(rows, c).Some? {
        StringStays(s, t, programs[c].value, NameOf(rows, c).value, limit);
      }
    }
  }

  lemma StringStays(s: seq<char>, t: seq<char>, p: nat, name: seq<char>, limit: nat)
    requires StringAt(s, p, name, limit) && |s| == |t| && s[..limit] == t[..limit]
    ensures StringAt(t, p, name, limit)
  {
    forall k | 0 <= k < limit ensures s[k] == t[k] {
      assert s[..limit][k] == t[..limit][k];
    }
    forall k | 0 <= k < |name| ensures t[p + k] == name[k] {
      assert s[p..p + |name|][k] == name[k];
    }
  }

  // ---------------------------------------------------------------- one line

  lemma AtSplit(s: seq<char>, p: nat, a: seq<char>, b: seq<char>)
    requires At(s, p, a + b)
    ensures At(s, p, a) && At(s, p + |a|, b)
  {
    var t := s[p..p + |a + b|];
    assert t[..|a|] == a && t[|a|..] == b;
    assert s[p..p + |a|] == t[..|a|];
    assert s[p + |a|..p + |a| + |b|] == t[|a|..];
  }

  /** Where the parts of a program's line lie. */
  lemma RowParts(s: seq<char>, p: nat, row: Row, rest: seq<char>)
    requires row.Program? && At(s, p, RowText(row, '\0') + rest) && RowOk(row)
    ensures var q := p + |Text(row.index, false)|;
      && At(s, p, Text(row.index, false)) && q + 1 + |row.name| < |s| && s[q] == ' '
      && At(s, q + 1, row.name) && s[q + 1 + |row.name|] == '\0'
      && At(s, q + 1 + |row.name| + 1, rest) && p < q && IsDecimal(s[p])
  {
    var number := Text(row.index, false);
    TextValue(row.index, false);
    assert IsDigit(number[0], false);
    hide At, Text, AllDigits, Value, IsDigit;
    LineParts(s, p, number, row.name, rest);
  }

  lemma LineParts(s: seq<char>, p: nat, number: seq<char>, name: seq<char>, rest: seq<char>)
    requires number != [] && At(s, p, (number + ([' '] + (name + ['\0']))) + rest)
    ensures var q := p + |number|;
      && At(s, p, number) && q + 1 + |name| < |s| && s[q] == ' '
      && At(s, q + 1, name) && s[q + 1 + |name|] == '\0'
      && At(s, q + 1 + |name| + 1, rest) && s[p] == number[0]
  {
    hide At;
    var q := p + |number|;
    AtSplit(s, p, number + ([' '] + (name + ['\0'])), rest);
    AtSplit(s, p, number, [' '] + (name + ['\0']));
    AtSplit(s, q, [' '], name + ['\0']);
    AtSplit(s, q + 1, name, ['\0']);
    AtFirst(s, p, number);
    AtFirst(s, q, [' ']);
    AtFirst(s, q + 1 + |name|, ['\0']);
  }

  lemma AtFirst(s: seq<char>, p: nat, text: seq<char>)
    requires At(s, p, text) && text != []
    ensures p + |text| <= |s| && s[p] == text[0]
  {
    assert s[p..p + |text|][0] == s[p];
  }

  lemma AtStays(s: seq<char>, t: seq<char>, p: nat, text: seq<char>)
    requires At(s, p, text) && |t| == |s| && s[p..] == t[p..]
    ensures At(t, p, text)
  {
    assert s[p..][..|text|] == t[p..][..|text|];
    assert s[p..][..|text|] == s[p..p + |text|];
    assert t[p..][..|text|] == t[p..p + |text|];
  }

  /** The pointer of the line's core now leads to its name, and no other pointer has changed. */
  ghost predicate Set(s: seq<char>, before: seq<Option<nat>>, after: seq<Option<nat>>, row: Row, limit: nat)
    requires |before| == MAX_CORE && RowOk(row)
  {
    match row
    case Blank => after == before
    case Program(index, name) =>
      exists p: nat :: after == before[index := Some(p)] && StringAt(s, p, name, limit)
  }

  /** A number below the 32-bit limit is read whole. */
  lemma NumberRead(s: seq<char>, p: nat, x: nat)
    requires At(s, p, Text(x, false)) && x < 0x1_0000_0000
    requires p + |Text(x, false)| < |s| && !IsDecimal(s[p + |Text(x, false)|])
    ensures DigitsEnd(s, p, false) == p + |Text(x, false)|
    ensures AllDigits(s[p..p + |Text(x, false)|], true)
    ensures Wrap(Value(s[p..p + |Text(x, false)|], 10), false) == x
  {
    hide Text, DigitsEnd, Value, AllDigits;
    ReadBack(s, p, x, false);
  }

  /** A turn of the second loop at the line that lies at p, before `rest`: it has made the file t
      from s and `after` from `programs`, and goes on where the line ends. */
  ghost predicate Turned(s: seq<char>, t: seq<char>, p: nat, next: nat, before: seq<Option<nat>>,
                         after: seq<Option<nat>>, row: Row, rest: seq<char>)
    requires RowOk(row) && |before| == MAX_CORE
  {
    && next == p + |RowText(row, '\0')| <= |t| == |s| && t[..p] == s[..p] && At(t, next, rest)
    && Set(t, before, after, row, next)
  }

  lemma SetPointer(s: seq<char>, programs: seq<Option<nat>>, row: Row, q: nat, limit: nat)
    requires row.Program? && RowOk(row) && |programs| == MAX_CORE && StringAt(s, q, row.name, limit)
    ensures Set(s, programs, programs[row.index := Some(q)], row, limit)
  {
    hide StringAt;
  }

  lemma RowLength(row: Row)
    ensures |RowText(row, '\0')| == if row.Blank? then 1 else |Text(row.index, false)| + 1 + |row.name| + 1
  {}

  /** Overwriting the space before a name leaves the name, what precedes the space and what
      follows the line. */
  lemma SpaceOverwritten(s: seq<char>, p: nat, q: nat, name: seq<char>, rest: seq<char>)
    requires p <= q && q + 1 + |name| < |s|
    requires At(s, q + 1, name) && s[q + 1 + |name|] == '\0' && At(s, q + 1 + |name| + 1, rest)
    requires forall i | 0 <= i < |name| :: name[i] != '\0'
    ensures var t := s[q := '\0'];
      && t[..p] == s[..p] && At(t, q + 1 + |name| + 1, rest)
      && StringAt(t, q + 1, name, q + 1 + |name| + 1) && Terminator(t, q + 1) == q + 1 + |name|
  {
    var t := s[q := '\0'];
    AtStays(s, t, q + 1, name);
    AtStays(s, t, q + 1 + |name| + 1, rest);
    TerminatorIs(t, q + 1, name);
  }

  lemma SpaceTurns(s: seq<char>, p: nat, q: nat, programs: seq<Option<nat>>, row: Row, rest: seq<char>)
    requires row.Program? && RowOk(row) && |programs| == MAX_CORE && q == p + |Text(row.index, false)|
    requires q + 1 + |row.name| < |s| && s[q + 1 + |row.name|] == '\0'
    requires At(s, q + 1, row.name) && At(s, q + 1 + |row.name| + 1, rest)
    ensures var next := p + |RowText(row, '\0')|;
      && Turned(s, s[q := '\0'], p, next, programs, programs[row.index := Some(q + 1)], row, rest)
      && Terminator(s[q := '\0'], q + 1) + 1 == next
  {
    hide At, Text, StringAt, Terminator, RowText, Set;
    RowLength(row);
    SpaceOverwritten(s, p, q, row.name, rest);
    SetPointer(s[q := '\0'], programs, row, q + 1, q + 1 + |row.name| + 1);
  }

  /** What the turn at a program's line reads, and what it leaves. */
  lemma ProgramParsed(s: seq<char>, p: nat, programs: seq<Option<nat>>, row: Row, rest: seq<char>)
    requires row.Program? && RowOk(row) && At(s, p, RowText(row, '\0') + rest) && |programs| == MAX_CORE
    ensures row.index < MAX_CORE && p + |Text(row.index, false)| + 1 < |s|
    ensures DigitsEnd(s, p, false) == p + |Text(row.index, false)|
    ensures var q, next := p + |Text(row.index, false)|, p + |RowText(row, '\0')|;
      && AllDigits(s[p..q], true) && Wrap(Value(s[p..q], 10), false) == row.index
      && Turned(s, s[q := '\0'], p, next, programs, programs[row.index := Some(q + 1)], row, rest)
      && next <= |s| && Terminator(s[q := '\0'], q + 1) + 1 == next
  {
    hide At, Text, RowText, Value, Turned, Terminator, AllDigits, DigitsEnd, Wrap;
    IndexRead(s, p, row, rest);
    RowParts(s, p, row, rest);
    RowLength(row);
    hide RowOk;
    SpaceTurns(s, p, p + |Text(row.index, false)|, programs, row, rest);
  }

  lemma IndexRead(s: seq<char>, p: nat, row: Row, rest: seq<char>)
    requires row.Program? && RowOk(row) && At(s, p, RowText(row, '\0') + rest)
    ensures row.index < MAX_CORE && p + |Text(row.index, false)| + 1 < |s|
    ensures DigitsEnd(s, p, false) == p + |Text(row.index, false)|
    ensures var q := p + |Text(row.index, false)|;
      AllDigits(s[p..q], true) && Wrap(Value(s[p..q], 10), false) == row.index
  {
    assert row.index < MAX_CORE && !IsDecimal(' ');
    hide At, Text, RowText, Value, AllDigits, DigitsEnd, Wrap, IsDecimal, RowOk;
    RowParts(s, p, row, rest);
    NumberRead(s, p, row.index);
  }

  /** The turn of the second loop at a program's line: its pointer is set and the space before its
      name overwritten. */
  method ParseProgram(file: array<char>, p: nat, programs: seq<Option<nat>>, ghost row: Row, ghost rest: seq<char>)
      returns (next: nat, after: seq<Option<nat>>)
    requires row.Program? && RowOk(row) && At(file[..], p, RowText(row, '\0') + rest) && |programs| == MAX_CORE
    modifies file
    ensures Turned(old(file[..]), file[..], p, next, programs, after, row, rest)
  {
    hide At, RowOk, RowText, Text, Terminator, Turned, DigitsEnd, Value, Wrap, AllDigits;
    ProgramParsed(file[..], p, programs, row, rest);
    var index, end := Atou(file[..], p);
    after := programs[index := Some(end + 1)];
    file[end] := '\0';
    assert file[..] == old(file[..])[end := '\0'];
    var line := GetNextLine(file, end + 1);
    next := line.value;
  }

  /** One turn of the second loop: a blank line is passed over. */
  method ParseRow(file: array<char>, p: nat, programs: seq<Option<nat>>, ghost row: Row, ghost rest: seq<char>)
      returns (next: nat, after: seq<Option<nat>>)
    requires RowOk(row) && At(file[..], p, RowText(row, '\0') + rest) && |programs| == MAX_CORE
    modifies file
    ensures Turned(old(file[..]), file[..], p, next, programs, after, row, rest)
  {
    FirstOfRow(file[..], p, row, rest);
    if file[p] == '\0' {
      var line := GetNextLine(file, p);
      next, after := line.value, programs;
    } else {
      next, after := ParseProgram(file, p, programs, row, rest);
    }
  }

  /** A line is blank exactly when it starts with its terminator. */
  lemma FirstOfRow(s: seq<char>, p: nat, row: Row, rest: seq<char>)
    requires RowOk(row) && At(s, p, RowText(row, '\0') + rest)
    ensures p < |s| && (s[p] == '\0' <==> row.Blank?)
    ensures row.Blank? ==> At(s, p + 1, rest) && Terminator(s, p) == p
  {
    AtSplit(s, p, RowText(row, '\0'), rest);
    if row.Blank? {
      assert s[p..p + 1][0] == '\0';
    } else {
      RowParts(s, p, row, rest);
    }
  }

  // ---------------------------------------------------------------- the parser

  datatype Init = Init(requiredCores: nat, programs: seq<Option<nat>>)

  lemma TurnedPrograms(s: seq<char>, t: seq<char>, before: seq<Option<nat>>, after: seq<Option<nat>>, rows: seq<Row>,
                       k: nat, p: nat, next: nat, rest: seq<char>)
    requires k < |rows| && RowOk(rows[k]) && |before| == MAX_CORE && p <= |s| && Programs(s, before, rows[..k], p)
    requires Turned(s, t, p, next, before, after, rows[k], rest)
    ensures next == p + |RowText(rows[k], '\0')| <= |t| == |s| && At(t, next, rest)
    ensures Programs(t, after, rows[..k + 1], next)
  {
    ProgramsStay(s, t, before, rows[..k], p);
    assert rows[..k + 1][..k] == rows[..k];
    hide At, RowText;
  }

  lemma CutHeader(s: seq<char>)
    requires |CORES| <= |s|
    ensures At(Cut(s), 0, CORES) <==> At(s, 0, CORES)
  {
    if At(s, 0, CORES) {
      CutKeeps(CORES);
      CutConcat(CORES, s[|CORES|..]);
      assert s == CORES + s[|CORES|..];
    }
    if At(Cut(s), 0, CORES) {
      forall k | 0 <= k < |CORES| ensures s[k] == CORES[k] {
        assert Cut(s)[0..|CORES|][k] == CORES[k];
      }
    }
  }

  /** Every file that starts with the header and is laid out in lines is read back; without the
      header the kernel panics. */
  method ParseInit(file: array<char>, ghost cores: nat, ghost rows: seq<Row>) returns (init: Option<Init>)
    requires |CORES| <= file.Length && RowsOk(rows) && cores < 0x1_0000_0000
    requires At(file[..], 0, CORES) ==> file[..] == FileText(cores, rows, '\n')
    modifies file
    ensures init.None? <==> !At(old(file[..]), 0, CORES)
    ensures init.Some? ==> init.value.requiredCores == cores
    ensures init.Some? ==> Programs(file[..], init.value.programs, rows, file.Length)
  {
    CutHeader(file[..]);
    CutFile(cores, rows);
    CutLines(file);
    var different := Strncmp(file[..], 0, CORES);
    if different != 0 {
      return None;
    }
    var p: nat := |CORES|;
    HeaderParts(file[..], cores, rows);
    var required, end := Atou(file[..], p);
    var line := GetNextLine(file, p);
    p := line.value;
    var programs: seq<Option<nat>> := seq(MAX_CORE, _ => None);
    ghost var k: nat := 0;
    assert rows[..0] == [] && rows[0..] == rows;
    assert Programs(file[..], programs, rows[..0], p);
    hide At, FileText, RowsText, RowText, Text, Programs, Turned, Terminator, RowOk, Cut;
    while p < file.Length
      invariant k <= |rows| && p <= file.Length
      invariant At(file[..], p, RowsText(rows[k..], '\0')) && p + |RowsText(rows[k..], '\0')| == file.Length
      invariant |programs| == MAX_CORE && Programs(file[..], programs, rows[..k], p)
      decreases |rows| - k
    {
      NextRow(rows, k);
      assert |programs| == MAX_CORE && RowOk(rows[k]);
      ghost var s, was, start := file[..], programs, p;
      p, programs := ParseRow(file, p, programs, rows[k], RowsText(rows[k + 1..], '\0'));
      TurnedPrograms(s, file[..], was, programs, rows, k, start, p, RowsText(rows[k + 1..], '\0'));
      k := k + 1;
    }
    NextRow(rows, k);
    return Some(Init(required, programs));
  }

  lemma NextRow(rows: seq<Row>, k: nat)
    requires k <= |rows|
    ensures RowsText(rows[k..], '\0') ==
            if k == |rows| then [] else RowText(rows[k], '\0') + RowsText(rows[k + 1..], '\0')
    ensures |RowsText(rows[k..], '\0')| == 0 <==> k == |rows|
    ensures rows[..|rows|] == rows
  {
    if k < |rows| {
      assert rows[k..][0] == rows[k] && rows[k..][1..] == rows[k + 1..];
    }
  }

  /** Where the header's number is and where the lines start. */
  lemma HeaderParts(s: seq<char>, cores: nat, rows: seq<Row>)
    requires s == FileText(cores, rows, '\0') && cores < 0x1_0000_0000
    ensures var p := |CORES| + |Text(cores, false)|;
      && DigitsEnd(s, |CORES|, false) == p < |s| && s[p] == '\0'
      && AllDigits(s[|CORES|..p], true) && Wrap(Value(s[|CORES|..p], 10), false) == cores
      && Terminator(s, |CORES|) == p
      && At(s, p + 1, RowsText(rows, '\0')) && p + 1 + |RowsText(rows, '\0')| == |s|
  {
    var number, rest := Text(cores, false), RowsText(rows, '\0');
    hide Text, RowsText;
    assert At(s, 0, CORES + (number + (['\0'] + rest)));
    AtSplit(s, 0, CORES, number + (['\0'] + rest));
    AtSplit(s, |CORES|, number, ['\0'] + rest);
    AtSplit(s, |CORES| + |number|, ['\0'], rest);
    assert s[|CORES| + |number|..|CORES| + |number| + 1][0] == '\0';
    TextValue(cores, false);
    TerminatorIs(s, |CORES|, number);
    NumberRead(s, |CORES|, cores);
  }
}
