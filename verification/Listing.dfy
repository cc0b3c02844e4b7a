/** Directory listings of the HMC drive: lines arrive in chunks of any size, cut anywhere, and a line that is not
    complete is carried over to the next chunk. */
module Listing {
  import opened Arith
  import opened Options

  predicate IsSpace(c: char) {
    c == ' ' || '\t' <= c <= '\r'
  }

  // ----- the listing in one piece ----------------------------------------------------------------------------

  /** The first newline of t from i on, before j; j if there is none. */
  function Eol(t: string, i: nat, j: nat): (e: nat)
    requires i <= j <= |t|
    ensures i <= e <= j
    decreases j - i
  {
    if i == j || t[i] == '\n' then i else Eol(t, i + 1, j)
  }

  /** The first character of t from i on, before j, that is not white space. */
  function Skip(t: string, i: nat, j: nat): (a: nat)
    requires i <= j <= |t|
    ensures i <= a <= j
    decreases j - i
  {
    if i == j || !IsSpace(t[i]) then i else Skip(t, i + 1, j)
  }

  /** The characters of t from i to e. */
  function Text(t: string, i: nat, e: nat): (s: string)
    requires i <= e <= |t|
    ensures |s| == e - i && forall k :: 0 <= k < |s| ==> s[k] == t[i + k]
  {
    seq(e - i, k requires 0 <= k < e - i => t[i + k])
  }

  /** The entry of one line, if it is a file's. */
  function Entry<E>(read: string -> Option<E>, t: string, i: nat, e: nat): Option<E>
    requires i <= e <= |t|
  {
    var a := Skip(t, i, e);
    if a == e then None else read(Text(t, a, e))
  }

  function Add<E>(x: Option<E>, rest: seq<E>): seq<E> {
    match x
    case None => rest
    case Some(v) => [v] + rest
  }

  /** The entries of all lines from i on that are complete, in order. */
  function Entries<E>(read: string -> Option<E>, t: string, i: nat): seq<E>
    requires i <= |t|
    decreases |t| - i
  {
    var e := Eol(t, i, |t|);
    if e == |t| then [] else Add(Entry(read, t, i, e), Entries(read, t, e + 1))
  }

  lemma {:induction false} EolWithin(t: string, i: nat, j: nat)
    requires i <= j <= |t|
    ensures if Eol(t, i, j) < j then Eol(t, i, |t|) == Eol(t, i, j) && t[Eol(t, i, j)] == '\n' else j <= Eol(t, i, |t|)
    decreases j - i
  {
    if i < j && t[i] != '\n' {
      EolWithin(t, i + 1, j);
    }
  }

  lemma {:induction false} SkipWithin(t: string, i: nat, j: nat)
    requires i <= j <= |t|
    ensures if Skip(t, i, j) < j then Skip(t, i, |t|) == Skip(t, i, j)
            && !IsSpace(t[Skip(t, i, j)]) else j <= Skip(t, i, |t|)
    decreases j - i
  {
    if i < j && IsSpace(t[i]) {
      SkipWithin(t, i + 1, j);
    }
  }

  lemma {:induction false} EntriesSpace<E>(read: string -> Option<E>, t: string, i: nat)
    requires i < |t| && IsSpace(t[i])
    ensures Entries(read, t, i) == Entries(read, t, i + 1)
  {
    if t[i] == '\n' {
      assert Eol(t, i, |t|) == i && Entry(read, t, i, i) == None;
    } else {
      var e := Eol(t, i + 1, |t|);
      assert Eol(t, i, |t|) == e && Skip(t, i, e) == Skip(t, i + 1, e);
    }
  }

  /** The first character of a line: a blank, a tab and what follows it up to the carriage return are skipped, and any
      other character belongs to the entry. */
  lemma {:induction false} FirstOfLine<E>(read: string -> Option<E>, c: char, line: string)
    requires forall i :: 0 <= i < |line| ==> line[i] != '\n'
    ensures var t := [c] + line + "\n";
            Entries(read, t, 0) == if c == ' ' || 9 <= c as int <= 13 then Entries(read, t, 1)
                                   else Add(read([c] + line), [])
  {
    var t := [c] + line + "\n";
    if IsSpace(c) {
      EntriesSpace(read, t, 0);
    } else {
      EolIs(t, 0, |line| + 1);
      assert Text(t, 0, |line| + 1) == [c] + line;
    }
  }

  /** A line ends with the first newline. */
  lemma {:induction false} EolIs(t: string, i: nat, e: nat)
    requires i <= e < |t| && t[e] == '\n' && forall k :: i <= k < e ==> t[k] != '\n'
    ensures Eol(t, i, |t|) == e
    decreases e - i
  {
    if i < e {
      EolIs(t, i + 1, e);
    }
  }

  /** White space in front of a line means nothing. */
  lemma {:induction false} EntriesSkip<E>(read: string -> Option<E>, t: string, i: nat, j: nat)
    requires i <= j <= |t|
    ensures Entries(read, t, i) == Entries(read, t, Skip(t, i, j))
    decreases j - i
  {
    if i < j && IsSpace(t[i]) {
      EntriesSpace(read, t, i);
      EntriesSkip(read, t, i + 1, j);
    }
  }

  /** One line, and the white space around it, of what has arrived up to j. */
  lemma {:induction false} EntriesLine<E>(read: string -> Option<E>, t: string, i: nat, j: nat)
    requires i <= j <= |t|
    ensures var a := Skip(t, i, j); var e := Eol(t, a, j);
            e < j ==> Entries(read, t, i) == Add(Entry(read, t, a, e), Entries(read, t, Skip(t, e, j)))
  {
    var a := Skip(t, i, j);
    var e := Eol(t, a, j);
    if e < j {
      EntriesSkip(read, t, i, j);
      EolWithin(t, a, j);
      EntriesSkip(read, t, e + 1, j);
    }
  }

  /** What parsing makes of the text from i on when it has arrived up to j: the end of the line with the white space
      behind it, and the entry. */
  function After(t: string, i: nat, j: nat): (k: nat)
    requires i <= j <= |t|
    ensures i <= k <= j
  {
    Skip(t, Eol(t, Skip(t, i, j), j), j)
  }

  function Found<E>(read: string -> Option<E>, t: string, i: nat, j: nat): Option<E>
    requires i <= j <= |t|
  {
    var a := Skip(t, i, j);
    var e := Eol(t, a, j);
    if e < j then Entry(read, t, a, e) else None
  }

  // ----- parsing what is in the buffer --------------------------------------------------------------------------

  /** The buffer holds t from p on, n characters, and the end of string behind them. */
  ghost predicate Window(buf: array<char>, t: string, p: nat, n: nat)
    reads buf
  {
    && n < buf.Length && p + n <= |t| && buf[n] == '\0'
    && (forall k :: 0 <= k < n ==> buf[k] == t[p + k])
  }

  ghost predicate NoNul(t: string) {
    forall k :: 0 <= k < |t| ==> t[k] != '\0'
  }

  method SkipSpace(buf: array<char>, from: nat, ghost t: string, ghost p: nat, ghost n: nat) returns (i: nat)
    requires NoNul(t) && Window(buf, t, p, n) && from <= n
    ensures p + i == Skip(t, p + from, p + n)
  {
    i := from;
    while buf[i] != '\0' && IsSpace(buf[i])
      invariant from <= i <= n && Skip(t, p + i, p + n) == Skip(t, p + from, p + n)
      decreases n - i
    {
      i := i + 1;
    }
  }

  method SkipLine(buf: array<char>, from: nat, ghost t: string, ghost p: nat, ghost n: nat) returns (i: nat)
    requires NoNul(t) && Window(buf, t, p, n) && from <= n
    ensures p + i == Eol(t, p + from, p + n)
  {
    i := from;
    while buf[i] != '\0' && buf[i] != '\n'
      invariant from <= i <= n && Eol(t, p + i, p + n) == Eol(t, p + from, p + n)
      decreases n - i
    {
      i := i + 1;
    }
  }

  /** hmcdrv_parse_line: an entry only if the line is complete; the start of the next line in any case. */
  method ParseLine<E>(read: string -> Option<E>, buf: array<char>, line: nat, ghost t: string, ghost p: nat,
                      ghost n: nat)
    returns (next: nat, entry: Option<E>)
    requires NoNul(t) && Window(buf, t, p, n) && line <= n
    ensures p + next == After(t, p + line, p + n) && entry == Found(read, t, p + line, p + n)
  {
    var i := SkipSpace(buf, line, t, p, n);
    var start := i;
    i := SkipLine(buf, i, t, p, n);
    entry := None;
    SkipWithin(t, p + line, p + n);
    EolWithin(t, p + start, p + n);
    if buf[i] == '\n' && start < i {
      entry := read(buf[start..i]);
      assert buf[start..i] == Text(t, p + start, p + i);
    }
    next := SkipSpace(buf, i, t, p, n);
  }

  lemma {:induction false} Progress(t: string, i: nat, j: nat)
    requires i <= j <= |t| && After(t, i, j) < j
    ensures i < After(t, i, j) && Eol(t, Skip(t, i, j), j) < j
  {
    SkipWithin(t, i, j);
    EolWithin(t, Skip(t, i, j), j);
  }

  function Take<E>(got: seq<E>, x: Option<E>): seq<E> {
    match x
    case None => got
    case Some(v) => got + [v]
  }

  lemma {:induction false} Assoc<E>(got: seq<E>, x: Option<E>, rest: seq<E>)
    ensures Take(got, x) + rest == got + Add(x, rest)
  {
  }

  /** got are the entries of t in front of i. */
  ghost predicate Before<E>(read: string -> Option<E>, t: string, got: seq<E>, i: nat, all: seq<E>)
    requires i <= |t|
  {
    && |got| + |Entries(read, t, i)| == |all|
    && (forall k :: 0 <= k < |got| ==> got[k] == all[k])
    && (forall k :: 0 <= k < |Entries(read, t, i)| ==> Entries(read, t, i)[k] == all[|got| + k])
  }

  lemma {:induction false} BeforeIff<E>(read: string -> Option<E>, t: string, got: seq<E>, i: nat, all: seq<E>)
    requires i <= |t|
    ensures Before(read, t, got, i, all) <==> got + Entries(read, t, i) == all
  {
    if got + Entries(read, t, i) == all {
      forall k | 0 <= k < |Entries(read, t, i)| ensures Entries(read, t, i)[k] == all[|got| + k] {
        assert (got + Entries(read, t, i))[|got| + k] == Entries(read, t, i)[k];
      }
    }
  }

  lemma {:induction false} TakeLine<E>(read: string -> Option<E>, t: string, got: seq<E>, i: nat, j: nat, all: seq<E>)
    requires i <= j <= |t| && Before(read, t, got, i, all) && (After(t, i, j) < j || Found(read, t, i, j).Some?)
    ensures Before(read, t, Take(got, Found(read, t, i, j)), After(t, i, j), all)
  {
    if After(t, i, j) < j {
      Progress(t, i, j);
    }
    EntriesLine(read, t, i, j);
    Assoc(got, Found(read, t, i, j), Entries(read, t, After(t, i, j)));
    BeforeIff(read, t, got, i, all);
    BeforeIff(read, t, Take(got, Found(read, t, i, j)), After(t, i, j), all);
  }

  /** How far the text is dealt with once the line at i has been parsed: past it, or up to it if it may go on. */
  function Reached<E>(read: string -> Option<E>, t: string, i: nat, j: nat): (k: nat)
    requires i <= j <= |t|
    ensures k <= j
  {
    if After(t, i, j) < j || Found(read, t, i, j).Some? then After(t, i, j) else i
  }

  // ----- lines and the room in the buffer ---------------------------------------------------------------------------

  /** What the line that starts at i can leave in the buffer: all of it but the newline if it is a file's, and if not,
      its newline and the white space behind it too. */
  function Carry<E>(read: string -> Option<E>, t: string, i: nat): nat
    requires i <= |t|
  {
    if Found(read, t, i, |t|).Some? then Eol(t, Skip(t, i, |t|), |t|) - i else After(t, i, |t|) - i
  }

  /** Where the next fragment can start, at the earliest: behind the newline of a file's line, and otherwise at the next
      line. */
  function Next<E>(read: string -> Option<E>, t: string, i: nat): (k: nat)
    requires i < |t|
    ensures i < k <= |t|
  {
    NextLater(t, i);
    if Found(read, t, i, |t|).Some? then Eol(t, Skip(t, i, |t|), |t|) + 1 else After(t, i, |t|)
  }

  lemma {:induction false} NextLater(t: string, i: nat)
    requires i < |t|
    ensures i < After(t, i, |t|)
  {
    if After(t, i, |t|) < |t| {
      Progress(t, i, |t|);
    }
  }

  /** As long as there are entries to come, every line leaves room in the buffer. */
  ghost predicate Fits<E>(read: string -> Option<E>, t: string, i: nat, len: nat)
    requires i <= |t|
    decreases |t| - i
  {
    Entries(read, t, i) == [] || (i < |t| && Carry(read, t, i) < len && Fits(read, t, Next(read, t, i), len))
  }

  /** What is carried over is no more than the line can leave. */
  lemma {:induction false} CarriedFits<E>(read: string -> Option<E>, t: string, i: nat, j: nat)
    requires i <= j <= |t| && After(t, i, j) == j && Found(read, t, i, j) == None
    ensures j - i <= Carry(read, t, i)
  {
    var a := Skip(t, i, j);
    var e := Eol(t, a, j);
    SkipWithin(t, i, j);
    EolWithin(t, a, j);
    SkipWithin(t, e, j);
  }

  /** Behind its newline, the rest of the listing is what it was. */
  lemma {:induction false} EntriesNext<E>(read: string -> Option<E>, t: string, i: nat)
    requires i < |t|
    ensures Entries(read, t, i) == Add(Found(read, t, i, |t|), Entries(read, t, Next(read, t, i)))
  {
    var a := Skip(t, i, |t|);
    var e := Eol(t, a, |t|);
    if e < |t| {
      EntriesLine(read, t, i, |t|);
      EolWithin(t, a, |t|);
      EntriesSkip(read, t, e + 1, |t|);
    } else {
      EntriesSkip(read, t, i, |t|);
      assert Next(read, t, i) == |t|;
    }
  }

  /** A line that leaves room says nothing about the rest. */
  lemma {:induction false} FitsNext<E>(read: string -> Option<E>, t: string, i: nat, len: nat)
    requires i < |t|
    ensures Fits(read, t, i, len) ==> Fits(read, t, Next(read, t, i), len)
    ensures Carry(read, t, i) < len && Fits(read, t, Next(read, t, i), len) ==> Fits(read, t, i, len)
  {
    EntriesNext(read, t, i);
  }

  /** White space in front of a line only takes room. */
  lemma {:induction false} FitsSpace<E>(read: string -> Option<E>, t: string, i: nat, len: nat)
    requires i < |t| && IsSpace(t[i]) && Fits(read, t, i, len)
    ensures Fits(read, t, i + 1, len)
  {
    EntriesSpace(read, t, i);
    if Entries(read, t, i) != [] {
      assert Skip(t, i, |t|) == Skip(t, i + 1, |t|);
      assert i + 1 < |t|;
      assert Next(read, t, i + 1) == Next(read, t, i);
    }
  }

  lemma {:induction false} FitsSkip<E>(read: string -> Option<E>, t: string, i: nat, j: nat, len: nat)
    requires i <= j <= |t| && Fits(read, t, i, len)
    ensures Fits(read, t, Skip(t, i, j), len)
    decreases j - i
  {
    if i < j && IsSpace(t[i]) {
      FitsSpace(read, t, i, len);
      FitsSkip(read, t, i + 1, j, len);
    }
  }

  /** A line and what follows it have arrived. */
  lemma {:induction false} FitsPassed<E>(read: string -> Option<E>, t: string, i: nat, j: nat, len: nat)
    requires i <= j <= |t| && After(t, i, j) < j
    ensures Fits(read, t, i, len) ==> Fits(read, t, After(t, i, j), len)
    ensures Found(read, t, i, j) == None && After(t, i, j) - i < len && Fits(read, t, After(t, i, j), len)
            ==> Fits(read, t, i, len)
  {
    Progress(t, i, j);
    var a, k := Skip(t, i, j), After(t, i, j);
    var e := Eol(t, a, j);
    SkipWithin(t, i, j);
    EolWithin(t, a, j);
    SkipWithin(t, e, j);
    assert After(t, i, |t|) == k && Found(read, t, i, |t|) == Found(read, t, i, j);
    FitsNext(read, t, i, len);
    if Fits(read, t, i, len) && Found(read, t, i, j).Some? {
      FitsSkip(read, t, e + 1, j, len);
    }
  }

  /** A file's line has arrived, and nothing but white space behind it. */
  lemma {:induction false} FitsTaken<E>(read: string -> Option<E>, t: string, i: nat, j: nat, len: nat)
    requires i <= j <= |t| && After(t, i, j) == j && Found(read, t, i, j).Some?
    ensures Fits(read, t, i, len) ==> Fits(read, t, j, len)
    ensures Eol(t, Skip(t, i, j), j) == j - 1 && j - 1 - i < len && Fits(read, t, j, len) ==> Fits(read, t, i, len)
  {
    var a := Skip(t, i, j);
    var e := Eol(t, a, j);
    SkipWithin(t, i, j);
    EolWithin(t, a, j);
    assert Found(read, t, i, |t|) == Found(read, t, i, j) && Next(read, t, i) == e + 1;
    FitsNext(read, t, i, len);
    if Fits(read, t, i, len) {
      FitsSkip(read, t, e + 1, j, len);
    }
  }

  // ----- the lines of one buffer ------------------------------------------------------------------------------------

  /** Moving on from i to k loses nothing, and if the device delivers line by line, it does not help either. */
  ghost predicate Moves<E>(read: string -> Option<E>, t: string, len: nat, lines: bool, i: nat, k: nat)
    requires i <= |t| && k <= |t|
  {
    && (Fits(read, t, i, len) ==> Fits(read, t, k, len))
    && (lines && Fits(read, t, k, len) ==> Fits(read, t, i, len))
  }

  /** The buffer holds a fragment of length fr that is no entry yet, and behind it no more than one line. */
  ghost predicate OneLine<E>(read: string -> Option<E>, t: string, p: nat, fr: nat, n: nat)
    requires p + n <= |t|
  {
    && fr <= n && Found(read, t, p, p + fr) == None && After(t, p, p + fr) == p + fr
    && p + n <= Eol(t, p + fr, p + n) + 1
  }

  lemma {:induction false} EolLater(t: string, i: nat, k: nat, j: nat)
    requires i <= k <= j <= |t| && j <= Eol(t, i, j) + 1
    ensures j <= Eol(t, k, j) + 1
    decreases k - i
  {
    if i < k {
      EolLater(t, i + 1, k, j);
    }
  }

  /** Behind the fragment there is one line: it ends the buffer. */
  lemma {:induction false} LineEnds(t: string, i: nat, j: nat)
    requires i <= j <= |t| && j <= Eol(t, i, j) + 1
    ensures After(t, i, j) == j && j <= Eol(t, Skip(t, i, j), j) + 1
  {
    EolLater(t, i, Skip(t, i, j), j);
    var e := Eol(t, Skip(t, i, j), j);
    EolWithin(t, Skip(t, i, j), j);
    if e < j {
      assert Skip(t, e, j) == Skip(t, e + 1, j) == j;
    }
  }

  /** The line that starts with the fragment: an entry ends the buffer, and anything else reaches past the fragment. */
  lemma {:induction false} FragmentLine<E>(read: string -> Option<E>, t: string, p: nat, fr: nat, n: nat)
    requires p + n <= |t| && OneLine(read, t, p, fr, n)
    ensures Found(read, t, p, p + n).Some? ==>
              Eol(t, Skip(t, p, p + n), p + n) == p + n - 1 && After(t, p, p + n) == p + n
    ensures p + fr <= After(t, p, p + n)
  {
    var m, j := p + fr, p + n;
    SkipGrow(t, p, m, j);
    var a := Skip(t, p, m);
    if a < m {
      EolGrow(t, a, m, j);
      var e := Eol(t, a, m);
      if e < m {
        SkipGrow(t, e, m, j);
      } else {
        LineEnds(t, m, j);
        EolWithin(t, a, j);
      }
    } else {
      LineEnds(t, m, j);
      EolWithin(t, Skip(t, m, j), j);
    }
  }

  lemma {:induction false} SkipGrow(t: string, i: nat, m: nat, j: nat)
    requires i <= m <= j <= |t|
    ensures Skip(t, i, j) == if Skip(t, i, m) < m then Skip(t, i, m) else Skip(t, m, j)
    decreases m - i
  {
    if i < m && IsSpace(t[i]) {
      SkipGrow(t, i + 1, m, j);
    }
  }

  lemma {:induction false} EolGrow(t: string, i: nat, m: nat, j: nat)
    requires i <= m <= j <= |t|
    ensures Eol(t, i, j) == if Eol(t, i, m) < m then Eol(t, i, m) else Eol(t, m, j)
    decreases m - i
  {
    if i < m && t[i] != '\n' {
      EolGrow(t, i + 1, m, j);
    }
  }

  /** The line that starts at `line`, the fragment's or the one behind it, in a buffer with a fragment and one line. */
  lemma {:induction false} LineFacts<E>(read: string -> Option<E>, t: string, p: nat, fr: nat, n: nat, i: nat)
    requires p + n <= |t| && OneLine(read, t, p, fr, n) && (i == p || p + fr <= i <= p + n)
    ensures i <= p + n && (Found(read, t, i, p + n).Some? ==> Eol(t, Skip(t, i, p + n), p + n) == p + n - 1)
    ensures After(t, i, p + n) < p + n ==> Found(read, t, i, p + n) == None && p + fr <= After(t, i, p + n)
  {
    FragmentLine(read, t, p, fr, n);
    if p + fr <= i {
      EolLater(t, p + fr, i, p + n);
      LineEnds(t, i, p + n);
    }
  }

  /** The start of the last line of what has arrived up to j. */
  ghost function LastLine(t: string, i: nat, j: nat): (k: nat)
    requires i <= j <= |t|
    ensures i <= k <= j && After(t, k, j) == j
    decreases j - i
  {
    if After(t, i, j) == j then i else
      Progress(t, i, j);
      LastLine(t, After(t, i, j), j)
  }

  /** From the start of the buffer to its last line. */
  lemma {:induction false} LinesMove<E>(read: string -> Option<E>, t: string, len: nat, lines: bool, p: nat, fr: nat,
                                        n: nat, i: nat)
    requires p + n <= |t| && n <= len && p <= i <= p + n
             && (lines ==> OneLine(read, t, p, fr, n) && (i == p || p + fr <= i))
    ensures Moves(read, t, len, lines, i, LastLine(t, i, p + n))
    ensures lines ==> LastLine(t, i, p + n) == p || p + fr <= LastLine(t, i, p + n)
    decreases p + n - i
  {
    if After(t, i, p + n) < p + n {
      Progress(t, i, p + n);
      FitsPassed(read, t, i, p + n, len);
      if lines {
        LineFacts(read, t, p, fr, n, i);
      }
      LinesMove(read, t, len, lines, p, fr, n, After(t, i, p + n));
    }
  }

  /** From the last line of the buffer to where the next fragment starts. */
  lemma {:induction false} ChunkMoves<E>(read: string -> Option<E>, t: string, len: nat, lines: bool, p: nat, fr: nat,
                                         n: nat)
    requires p + n <= |t| && n <= len && (lines ==> OneLine(read, t, p, fr, n))
    ensures var k := LastLine(t, p, p + n);
            Moves(read, t, len, lines, p, if Found(read, t, k, p + n).Some? then p + n else k)
  {
    var k := LastLine(t, p, p + n);
    LinesMove(read, t, len, lines, p, fr, n, p);
    if Found(read, t, k, p + n).Some? {
      FitsTaken(read, t, k, p + n, len);
      if lines {
        LineFacts(read, t, p, fr, n, k);
      }
    }
  }

  /** Nothing of t in front of i is left to do, and the lines from there on are the last lines from p on. */
  ghost predicate Ahead<E>(read: string -> Option<E>, t: string, p: nat, j: nat, got: seq<E>, i: nat, all: seq<E>)
    requires p <= j <= |t|
  {
    i <= j && Before(read, t, got, i, all) && LastLine(t, i, j) == LastLine(t, p, j)
  }

  /** All lines are parsed; the last one starts at i. */
  ghost predicate AtLast<E>(read: string -> Option<E>, t: string, p: nat, j: nat, got: seq<E>, i: nat, last: Option<E>,
                            all: seq<E>)
    requires p <= j <= |t|
  {
    i == LastLine(t, p, j) && last == Found(read, t, i, j) && Before(read, t, got, if last.Some? then j else i, all)
  }

  /** One more line of the buffer, and its entry. */
  lemma {:induction false} LineTaken<E>(read: string -> Option<E>, t: string, p: nat, j: nat, got: seq<E>, i: nat,
                                        all: seq<E>)
    requires p <= j <= |t| && Ahead(read, t, p, j, got, i, all)
    ensures var k, x := After(t, i, j), Found(read, t, i, j);
            && (k < j ==> i < k && Ahead(read, t, p, j, Take(got, x), k, all))
            && (k == j ==> AtLast(read, t, p, j, Take(got, x), i, x, all))
  {
    if After(t, i, j) < j {
      Progress(t, i, j);
    }
    if After(t, i, j) < j || Found(read, t, i, j).Some? {
      TakeLine(read, t, got, i, j, all);
    }
  }

  /** One round of the line loop: parse a line, and take its entry if there is one. */
  method NextLine<E>(read: string -> Option<E>, buf: array<char>, got0: seq<E>, line: nat,
                     ghost t: string, ghost p: nat, ghost n: nat, ghost all: seq<E>)
    returns (got: seq<E>, next: nat, last: Option<E>)
    requires NoNul(t) && Window(buf, t, p, n) && Ahead(read, t, p, p + n, got0, p + line, all)
    ensures line <= next <= n && (next < n ==> line < next && Ahead(read, t, p, p + n, got, p + next, all))
    ensures next == n ==> AtLast(read, t, p, p + n, got, p + line, last, all)
  {
    LineTaken(read, t, p, p + n, got0, p + line, all);
    next, last := ParseLine(read, buf, line, t, p, n);
    got := got0;
    if last.Some? {
      got := got + [last.value];
    }
    assert got == Take(got0, last);
  }

  /** The lines of one buffer.  The last one may be a fragment; line tells where it starts. */
  method ParseChunk<E>(read: string -> Option<E>, buf: array<char>, got0: seq<E>,
                       ghost t: string, ghost p: nat, ghost n: nat, ghost all: seq<E>)
    returns (got: seq<E>, line: nat, last: Option<E>)
    requires NoNul(t) && Window(buf, t, p, n) && Before(read, t, got0, p, all)
    ensures line <= n && AtLast(read, t, p, p + n, got, p + line, last, all)
  {
    line := 0;
    var next;
    got, next, last := NextLine(read, buf, got0, line, t, p, n, all);
    while buf[next] != '\0'
      invariant 0 <= line <= next <= n && (next < n ==> line < next && Ahead(read, t, p, p + n, got, p + next, all))
      invariant next == n ==> AtLast(read, t, p, p + n, got, p + line, last, all)
      decreases n - line
    {
      line := next;
      got, next, last := NextLine(read, buf, got, line, t, p, n, all);
    }
  }

  // ----- chunks ---------------------------------------------------------------------------------------------------

  /** memcpy of the fragment to the start of the buffer, as a copy that goes upwards.  memcpy promises that only where
      source and destination share no character, and they share one exactly when the fragment is longer than what is in
      front of it. */
  method MoveDown(buf: array<char>, from: nat, len: nat, ghost t: string, ghost p: nat) returns (ghost overlap: bool)
    requires from + len < buf.Length && Window(buf, t, p, from + len)
    modifies buf
    ensures p + from + len <= |t| && forall k :: 0 <= k < len ==> buf[k] == t[p + from + k]
    ensures overlap <==> from < len
  {
    overlap := from < len;
    for k := 0 to len
      invariant forall i :: 0 <= i < k ==> buf[i] == t[p + from + i]
      invariant forall i :: k <= i < from + len ==> buf[i] == old(buf[i])
    {
      buf[k] := buf[from + k];
    }
  }

  /** The device: as many characters of the listing from offset on as it wants to give, at least one if there are any
      and there is room. */
  method Transfer(listing: string, offset: nat, buf: array<char>, at: nat, room: nat, want: nat) returns (n: nat)
    requires offset <= |listing| && at + room <= buf.Length
    modifies buf
    ensures n == Min(Min(room, |listing| - offset), Max(want, 1))
    ensures forall k :: 0 <= k < at ==> buf[k] == old(buf[k])
    ensures forall k :: at <= k < at + n ==> buf[k] == listing[offset + (k - at)]
  {
    n := Min(Min(room, |listing| - offset), Max(want, 1));
    for k := 0 to n
      invariant forall i :: 0 <= i < at ==> buf[i] == old(buf[i])
      invariant forall i :: at <= i < at + k ==> buf[i] == listing[offset + (i - at)]
    {
      buf[at + k] := listing[offset + k];
    }
  }

  /** A rest without an entry. */
  lemma {:induction false} NothingLeft<E>(read: string -> Option<E>, t: string, i: nat)
    requires i <= |t| && After(t, i, |t|) == |t| && Found(read, t, i, |t|) == None
    ensures Entries(read, t, i) == []
  {
    var a := Skip(t, i, |t|);
    var e := Eol(t, a, |t|);
    if e < |t| {
      EntriesLine(read, t, i, |t|);
    } else {
      EntriesSkip(read, t, i, |t|);
    }
  }

  /** The fragment goes to the start of the buffer, if there is one. */
  method CarryOver<E>(buf: array<char>, line: nat, dirlen: nat, last: Option<E>, ghost t: string, ghost p: nat)
    returns (fraglen: nat, ghost p': nat)
    requires NoNul(t) && Window(buf, t, p, dirlen) && line <= dirlen
    modifies buf
    ensures p' == (if last.Some? then p + dirlen else p + line) && p' + fraglen == p + dirlen && fraglen <= dirlen
    ensures forall k :: 0 <= k < fraglen ==> buf[k] == t[p' + k]
  {
    fraglen, p' := 0, p + dirlen;
    if last.None? {
      fraglen, p' := dirlen - line, p + line;
      ghost var overlap := MoveDown(buf, line, fraglen, t, p);
    }
  }

  /** The device gives one line at a time. */
  ghost predicate ByLines(t: string, give: nat -> nat) {
    forall o {:trigger give(o)} :: 0 <= o < |t| ==> give(o) == Min(Eol(t, o, |t|) + 1, |t|) - o
  }

  /** There is such a device for every listing. */
  function LineDevice(t: string): (give: nat -> nat)
    ensures ByLines(t, give)
  {
    (o: nat) => if o < |t| then Min(Eol(t, o, |t|) + 1, |t|) - o else 0
  }

  /** A chunk from such a device ends with the line it starts in, or before. */
  lemma {:induction false} ChunkOfLine(t: string, give: nat -> nat, o: nat, n: nat)
    requires ByLines(t, give) && o < |t| && o + n <= |t| && n <= Max(give(o), 1)
    ensures o + n <= Eol(t, o, o + n) + 1
  {
    EolWithin(t, o, o + n);
  }

  /** Why the loop has come to an end: everything has been delivered, or the fragment fills the buffer. */
  lemma {:induction false} Stopped<E>(read: string -> Option<E>, t: string, got: seq<E>, p: nat, fraglen: nat, len: nat,
                                      lines: bool, all: seq<E>)
    requires Standing(read, t, got, p, fraglen, len, lines, all) && (fraglen == len || p + fraglen == |t|)
    requires all == Entries(read, t, 0)
    ensures got <= all && (Fits(read, t, 0, len) ==> got == all)
    ensures lines ==> (got == all <==> Fits(read, t, 0, len))
  {
    if p + fraglen == |t| {
      NothingLeft(read, t, p);
    } else {
      CarriedFits(read, t, p, p + fraglen);
    }
    assert Fits(read, t, p, len) <==> Entries(read, t, p) == [];
    BeforeIff(read, t, got, p, all);
    WholeIff(got, Entries(read, t, p), all);
  }

  lemma {:induction false} WholeIff<E>(got: seq<E>, rest: seq<E>, all: seq<E>)
    requires got + rest == all
    ensures got <= all && (got == all <==> rest == [])
  {
  }

  /** The entries in front of p are taken, and the fragment of length fr that starts there is no entry yet. */
  ghost predicate Standing<E>(read: string -> Option<E>, t: string, got: seq<E>, p: nat, fr: nat, len: nat, lines: bool,
                              all: seq<E>) {
    && p + fr <= |t| && Before(read, t, got, p, all) && Moves(read, t, len, lines, 0, p)
    && Found(read, t, p, p + fr) == None && After(t, p, p + fr) == p + fr
  }

  /** When all lines of the buffer are parsed. */
  lemma {:induction false} ChunkStands<E>(read: string -> Option<E>, t: string, got0: seq<E>, p: nat, fr: nat, len: nat,
                                          lines: bool, n: nat, got: seq<E>, i: nat, last: Option<E>, all: seq<E>)
    requires Standing(read, t, got0, p, fr, len, lines, all) && p + n <= |t| && n <= len
    requires (lines ==> OneLine(read, t, p, fr, n)) && AtLast(read, t, p, p + n, got, i, last, all)
    ensures p <= i <= p + n
    ensures var q := if last.Some? then p + n else i;
            Standing(read, t, got, q, p + n - q, len, lines, all)
  {
    ChunkMoves(read, t, len, lines, p, fr, n);
  }

  /** One round of the loop, up to the next call of the device. */
  method TakeChunk<E>(read: string -> Option<E>, buf: array<char>, dirlen: nat, got0: seq<E>,
                      ghost t: string, ghost p: nat, ghost fr: nat, ghost len: nat, ghost lines: bool,
                        ghost all: seq<E>)
    returns (got: seq<E>, fraglen: nat, ghost p': nat)
    requires NoNul(t) && Window(buf, t, p, dirlen) && dirlen <= len && Standing(read, t, got0, p, fr, len, lines, all)
    requires lines ==> OneLine(read, t, p, fr, dirlen)
    modifies buf
    ensures Standing(read, t, got, p', fraglen, len, lines, all) && p' + fraglen == p + dirlen && fraglen <= dirlen
    ensures forall k :: 0 <= k < fraglen ==> buf[k] == t[p' + k]
  {
    var line, last;
    got, line, last := ParseChunk(read, buf, got0, t, p, dirlen, all);
    ChunkStands(read, t, got0, p, fr, len, lines, dirlen, got, p + line, last, all);
    fraglen, p' := CarryOver(buf, line, dirlen, last, t, p);
  }

  /** The device is asked for more behind the fragment. */
  method Refill<E>(read: string -> Option<E>, listing: string, offset: nat, buf: array<char>, fraglen: nat, len: nat,
                   give: nat -> nat, ghost p: nat) returns (n: nat)
    requires buf.Length == len + 1 && fraglen <= len && p + fraglen == offset <= |listing|
    requires forall k :: 0 <= k < fraglen ==> buf[k] == listing[p + k]
    requires Found(read, listing, p, p + fraglen) == None && After(listing, p, p + fraglen) == p + fraglen
    modifies buf
    ensures fraglen + n <= len && offset + n <= |listing|
    ensures forall k :: 0 <= k < fraglen + n ==> buf[k] == listing[p + k]
    ensures n > 0 && ByLines(listing, give) ==> OneLine(read, listing, p, fraglen, fraglen + n)
    ensures n == 0 ==> fraglen == len || offset == |listing|
  {
    n := Transfer(listing, offset, buf, fraglen, len - fraglen, give(offset));
    if n > 0 && ByLines(listing, give) {
      ChunkOfLine(listing, give, offset, n);
    }
  }

  /** hmcdrv_cache_dir, for any device: entries in order, none twice and none that is not in the listing.  None is lost
      as long as every line leaves room in the buffer while there are entries to come, and for a device that gives one
      line at a time none is lost if and only if that is so. */
  method CacheDir<E>(read: string -> Option<E>, listing: string, len: nat, give: nat -> nat) returns (got: seq<E>)
    requires 0 < len && NoNul(listing)
    ensures got <= Entries(read, listing, 0)
    ensures Fits(read, listing, 0, len) ==> got == Entries(read, listing, 0)
    ensures ByLines(listing, give) ==> (got == Entries(read, listing, 0) <==> Fits(read, listing, 0, len))
  {
    var dirbuf := new char[len + 1];
    ghost var p: nat, all, lines := 0, Entries(read, listing, 0), ByLines(listing, give);
    var n := Refill(read, listing, 0, dirbuf, 0, len, give, p);
    var dirlen, offset, fraglen := n, n, 0;
    got := [];
    while n > 0
      invariant 0 <= n && 0 <= fraglen && dirlen == fraglen + n && dirlen <= len && p + dirlen == offset <= |listing|
      invariant Standing(read, listing, got, p, fraglen, len, lines, all)
      invariant forall k :: 0 <= k < dirlen ==> dirbuf[k] == listing[p + k]
      invariant 0 < n && lines ==> OneLine(read, listing, p, fraglen, dirlen)
      invariant n == 0 ==> fraglen == len || offset == |listing|
      decreases |listing| - offset, n
    {
      dirbuf[dirlen] := '\0';
      got, fraglen, p := TakeChunk(read, dirbuf, dirlen, got, listing, p, fraglen, len, lines, all);
      n := Refill(read, listing, offset, dirbuf, fraglen, len, give, p);
      offset := offset + n;
      dirlen := n + fraglen;
    }
    Stopped(read, listing, got, p, fraglen, len, lines, all);
  }

  /** Whenever the lines do not fit, a device that gives one line at a time loses entries. */
  method LosesSome<E>(read: string -> Option<E>, listing: string, len: nat) returns (got: seq<E>)
    requires 0 < len && NoNul(listing) && !Fits(read, listing, 0, len)
    ensures got < Entries(read, listing, 0)
  {
    got := CacheDir(read, listing, len, LineDevice(listing));
  }

  /** Two lines, the first of which is no file's and fills a buffer of five characters: the second one is lost. */
  lemma {:induction false} LostExample()
    ensures var read := (s: string) => if s == "ab" then Some(1) else None;
            Entries(read, "xxxxx\nab\n", 0) == [1] && !Fits(read, "xxxxx\nab\n", 0, 5)
  {
    var read, t := (s: string) => if s == "ab" then Some(1) else None, "xxxxx\nab\n";
    assert Text(t, 0, 5)[0] == 'x' && Text(t, 6, 8) == "ab";
    assert Eol(t, 0, 9) == 5 && Eol(t, 6, 9) == 8 && Eol(t, 9, 9) == 9;
    assert Entry(read, t, 0, 5) == None && Entry(read, t, 6, 8) == Some(1);
    assert Entries(read, t, 9) == [] && Entries(read, t, 6) == [1];
  }

  /** Empty lines behind a file's line take room only as far as the line itself and one newline do. */
  lemma {:induction false} EmptyLinesExample()
    ensures var read := (s: string) => if s == "ab" then Some(1) else None;
            Entries(read, "ab\n\n\n\n", 0) == [1] && Fits(read, "ab\n\n\n\n", 0, 5)
  {
    var read, t := (s: string) => if s == "ab" then Some(1) else None, "ab\n\n\n\n";
    assert Text(t, 0, 2) == "ab" && Eol(t, 0, 6) == 2 && Found(read, t, 0, 6) == Some(1);
    assert Skip(t, 3, 6) == 6 && Entries(read, t, 6) == [];
    EntriesSkip(read, t, 3, 6);
    EntriesNext(read, t, 0);
  }
}
