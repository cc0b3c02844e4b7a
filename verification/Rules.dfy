/** The rule language of the hotplug daemon: the precedence parser, checked against a grammar of concrete
    expressions, the printer, and variables that stand for their definitions. */
module Rules {
  import opened Arith
  import opened Options

  // ----- characters --------------------------------------------------------------------------------------

  datatype Class = Digits | Letters | Words

  predicate In(c: char, cls: Class) {
    match cls
    case Digits => '0' <= c <= '9'
    case Letters => 'a' <= c <= 'z' || 'A' <= c <= 'Z' || c == '_'
    case Words => 'a' <= c <= 'z' || 'A' <= c <= 'Z' || c == '_' || '0' <= c <= '9'
  }

  /** Length of the longest start of s in a class. */
  function Run(s: string, cls: Class): (n: nat)
    ensures n <= |s|
  {
    if s == "" || !In(s[0], cls) then 0 else 1 + Run(s[1..], cls)
  }

  function Head(s: string): char {
    if s == "" then '\0' else s[0]
  }

  /** s without its first n characters. */
  function Drop(s: string, n: nat): (r: string)
    requires n <= |s|
    ensures |r| == |s| - n
  {
    if n == 0 then s else Drop(s[1..], n - 1)
  }

  lemma {:induction false} DropIs(s: string, n: nat)
    requires n <= |s|
    ensures s == s[..n] + Drop(s, n)
  {
    if n != 0 {
      DropIs(s[1..], n - 1);
      assert s[..n] == [s[0]] + s[1..][..n - 1];
    }
  }

  lemma {:induction false} DropAppend(a: string, rest: string)
    ensures Drop(a + rest, |a|) == rest
  {
    if a == "" {
      assert a + rest == rest;
    } else {
      assert (a + rest)[1..] == a[1..] + rest;
      DropAppend(a[1..], rest);
    }
  }

  ghost predicate AllIn(a: string, cls: Class) {
    forall i :: 0 <= i < |a| ==> In(a[i], cls)
  }

  lemma {:induction false} RunIs(a: string, rest: string, cls: Class)
    requires AllIn(a, cls) && !In(Head(rest), cls)
    ensures Run(a + rest, cls) == |a| && Drop(a + rest, |a|) == rest
  {
    if a == "" {
      assert a + rest == rest;
    } else {
      assert (a + rest)[1..] == a[1..] + rest;
      RunIs(a[1..], rest, cls);
    }
  }

  lemma {:induction false} RunAll(s: string, cls: Class)
    ensures AllIn(s[..Run(s, cls)], cls) && !In(Head(Drop(s, Run(s, cls))), cls)
    ensures s == s[..Run(s, cls)] + Drop(s, Run(s, cls))
  {
    var n := Run(s, cls);
    if n != 0 {
      RunAll(s[1..], cls);
      assert s[..n] == [s[0]] + s[1..][..n - 1];
      assert Drop(s, n) == Drop(s[1..], n - 1);
    }
  }

  /** Length of the numeral at the start of s: digits, and a fraction unless the point has been seen. */
  function NumRun(s: string, point: bool): (n: nat)
    ensures n <= |s|
  {
    if s == "" then 0
    else if In(s[0], Digits) then 1 + NumRun(s[1..], point)
    else if s[0] == '.' && !point then 1 + NumRun(s[1..], true)
    else 0
  }

  function NumLen(s: string): (n: nat)
    ensures n <= |s|
  {
    NumRun(s, false)
  }

  ghost predicate IsNumeral(a: string) {
    a != "" && In(a[0], Digits) && NumLen(a) == |a|
  }

  // ----- operators and symbols -----------------------------------------------------------------------------

  datatype Op = And | Or | Greater | Lesser | Plus | Minus | Mult | Div

  const PRIO_NONE := 0

  /** op_prio_table. */
  function Prio(op: Op): nat {
    match op
    case Or => 1
    case And => 2
    case Greater => 3
    case Lesser => 3
    case Plus => 4
    case Minus => 4
    case Mult => 5
    case Div => 5
  }

  function OpChar(op: Op): char {
    match op
    case And => '&'
    case Or => '|'
    case Greater => '>'
    case Lesser => '<'
    case Plus => '+'
    case Minus => '-'
    case Mult => '*'
    case Div => '/'
  }

  function OpOf(c: char): Option<Op> {
    match c
    case '&' => Some(And)
    case '|' => Some(Or)
    case '>' => Some(Greater)
    case '<' => Some(Lesser)
    case '+' => Some(Plus)
    case '-' => Some(Minus)
    case '*' => Some(Mult)
    case '/' => Some(Div)
    case _ => None
  }

  lemma {:induction false} OpOfChar(op: Op)
    ensures OpOf(OpChar(op)) == Some(op)
  {
  }

  const SYMBOLS := 20
  const FIRST_PROC := 16
  const TIME := 19

  /** The symbol table, in the order in which it is searched. */
  function SymName(k: nat): string
    requires k < SYMBOLS
  {
    match k
    case 0 => "loadavg"
    case 1 => "runnable_proc"
    case 2 => "onumcpus"
    case 3 => "user"
    case 4 => "nice"
    case 5 => "system"
    case 6 => "idle"
    case 7 => "iowait"
    case 8 => "irq"
    case 9 => "softirq"
    case 10 => "steal"
    case 11 => "guest_nice"
    case 12 => "guest"
    case 13 => "swaprate"
    case 14 => "apcr"
    case 15 => "freemem"
    case 16 => "meminfo."
    case 17 => "vmstat."
    case 18 => "cpustat."
    case _ => "time"
  }

  /** The first symbol from number k on whose name s starts with. */
  function FirstMatch(s: string, k: nat): (m: nat)
    requires k <= SYMBOLS
    ensures k <= m <= SYMBOLS
    ensures m < SYMBOLS ==> SymName(m) <= s
    decreases SYMBOLS - k
  {
    if k == SYMBOLS then k else if SymName(k) <= s then k else FirstMatch(s, k + 1)
  }

  /** No name starts another, but for guest, which starts guest_nice and comes later in the table. */
  lemma {:induction false} NamesDiffer(j: nat, k: nat)
    requires j < k < SYMBOLS
    ensures 2 <= |SymName(j)| && 2 <= |SymName(k)|
    ensures !(j == 11 && k == 12) ==> SymName(j)[0] != SymName(k)[0] || SymName(j)[1] != SymName(k)[1]
  {
    if j < 10 {
      assert SymName(j)[0] != SymName(k)[0] || SymName(j)[1] != SymName(k)[1];
    }
  }

  lemma {:induction false} NotPrefix(rest: string, j: nat, k: nat)
    requires j < k < SYMBOLS && (k == 12 ==> Head(rest) != '_')
    ensures !(SymName(j) <= SymName(k) + rest)
  {
    NamesDiffer(j, k);
    if j == 11 && k == 12 {
      assert SymName(11)[5] == '_' && |SymName(12)| == 5;
    }
  }

  lemma {:induction false} FirstMatchIs(rest: string, j: nat, k: nat)
    requires j <= k < SYMBOLS && (k == 12 ==> Head(rest) != '_')
    ensures FirstMatch(SymName(k) + rest, j) == k && Drop(SymName(k) + rest, |SymName(k)|) == rest
    decreases k - j
  {
    DropAppend(SymName(k), rest);
    if j < k {
      NotPrefix(rest, j, k);
      FirstMatchIs(rest, j + 1, k);
    }
  }

  // ----- the parser --------------------------------------------------------------------------------------------

  datatype Term =
    | Const(neg: bool, num: string)
    | Symbol(k: nat)
    | Proc(k: nat, name: string, index: nat)
    | Neg(t: Term)
    | Not(t: Term)
    | Binary(op: Op, left: Term, right: Term)

  /** A term and the text behind it; Fail for a syntax error, Deep when variables nest deeper than allowed for. */
  datatype Result = Fail | Deep | Done(t: Term, rest: string)

  const MAX_VARNAME := 128

  /** strtol on decimal digits. */
  function Value(ds: string): nat {
    ValueTo(ds, |ds|)
  }

  function ValueTo(ds: string, n: nat): nat
    requires n <= |ds|
  {
    if n == 0 then 0 else ValueTo(ds, n - 1) * 10 + if In(ds[n - 1], Digits) then ds[n - 1] as int - '0' as int else 0
  }

  /** The optional history index; omitted, it is 0. */
  function ParseIndex(k: nat, name: string, s: string): (r: Result)
    ensures r.Done? ==> |r.rest| <= |s|
  {
    if Head(s) != '[' then Done(Proc(k, name, 0), s) else
      var d := Run(s[1..], Digits);
      var s' := Drop(s[1..], d);
      if d == 0 || Head(s') != ']' then Fail else Done(Proc(k, name, Value(s[1..][..d])), s'[1..])
  }

  /** What follows symbol k: name and history index where the symbol takes them. */
  function ParseNamed(k: nat, s: string): (r: Result)
    ensures r.Done? ==> |r.rest| <= |s|
  {
    if k < FIRST_PROC then Done(Symbol(k), s)
    else if k == TIME then ParseIndex(k, "", s)
    else ParseIndex(k, s[..Run(s, Letters)], Drop(s, Run(s, Letters)))
  }

  function ParseSymbol(s: string): (r: Result)
    ensures r.Done? ==> |r.rest| < |s|
  {
    var k := FirstMatch(s, 0);
    if k == SYMBOLS then Fail else ParseNamed(k, Drop(s, |SymName(k)|))
  }

  /** The first operand of parse_term. */
  function Operand(vars: map<string, string>, depth: nat, s: string, prio: nat): (r: Result)
    ensures r.Done? ==> |r.rest| < |s|
    decreases depth, |s|, 0
  {
    if Head(s) == '-' then
      if In(Head(s[1..]), Digits) then
        var n := NumLen(s[1..]);
        Done(Const(true, s[1..][..n]), Drop(s[1..], n))
      else match Parse(vars, depth, s[1..], prio)
        case Done(t, rest) => Done(Neg(t), rest)
        case bad => bad
    else if Head(s) == '!' then
      match Parse(vars, depth, s[1..], prio)
      case Done(t, rest) => Done(Not(t), rest)
      case bad => bad
    else if In(Head(s), Digits) then
      var n := NumLen(s);
      Done(Const(false, s[..n]), Drop(s, n))
    else if Head(s) == '(' then
      match Parse(vars, depth, s[1..], PRIO_NONE)
      case Done(t, rest) => if Head(rest) == ')' then Done(t, rest[1..]) else Fail
      case bad => bad
    else
      var n := Run(s, Words);
      if MAX_VARNAME < n then Fail
      else if n != 0 && s[..n] in vars then
        if depth == 0 then Deep else
          match Parse(vars, depth - 1, vars[s[..n]], PRIO_NONE)
          case Done(t, rest) => if rest == "" then Done(t, Drop(s, n)) else Fail
          case bad => bad
      else ParseSymbol(s)
  }

  /** parse_term. */
  function Parse(vars: map<string, string>, depth: nat, s: string, prio: nat): (r: Result)
    ensures r.Done? ==> |r.rest| < |s|
    decreases depth, |s|, 1
  {
    match Operand(vars, depth, s, prio)
    case Done(t, rest) => Chain(vars, depth, rest, prio, t)
    case bad => bad
  }

  /** The operator loop of parse_term, with what has been parsed so far. */
  function Chain(vars: map<string, string>, depth: nat, s: string, prio: nat, left: Term): (r: Result)
    ensures r.Done? ==> |r.rest| <= |s|
    decreases depth, |s|, 0
  {
    match OpOf(Head(s))
    case None => Done(left, s)
    case Some(op) =>
      if prio >= Prio(op) then Done(left, s) else
        match Parse(vars, depth, s[1..], Prio(op))
        case Done(right, rest) => Chain(vars, depth, rest, prio, Binary(op, left, right))
        case bad => bad
  }

  // ----- the grammar --------------------------------------------------------------------------------------------

  /** An expression as it is written.  Var stands for a variable together with the expression that defines it. */
  datatype Expr =
    | Num(neg: bool, num: string)
    | Name(k: nat)
    | ProcName(k: nat, name: string, idx: string)
    | Var(name: string, def: Expr)
    | Paren(e: Expr)
    | Minused(e: Expr)
    | Negated(e: Expr)
    | Bin(op: Op, l: Expr, r: Expr)
  {
    predicate Unary() {
      Minused? || Negated?
    }
  }

  function IndexText(idx: string): string {
    if idx == "" then "" else "[" + (idx + "]")
  }

  /** The text of an expression. */
  function Text(e: Expr): string {
    match e
    case Num(neg, num) => if neg then "-" + num else num
    case Name(k) => if k < SYMBOLS then SymName(k) else ""
    case ProcName(k, name, idx) => if k < SYMBOLS then SymName(k) + (name + IndexText(idx)) else ""
    case Var(name, _) => name
    case Paren(e1) => "(" + (Text(e1) + ")")
    case Minused(e1) => "-" + Text(e1)
    case Negated(e1) => "!" + Text(e1)
    case Bin(op, l, r) => Text(l) + ([OpChar(op)] + Text(r))
  }

  /** The term an expression means. */
  function Meaning(e: Expr): Term {
    match e
    case Num(neg, num) => Const(neg, num)
    case Name(k) => Symbol(k)
    case ProcName(k, name, idx) => Proc(k, name, Value(idx))
    case Var(_, def) => Meaning(def)
    case Paren(e1) => Meaning(e1)
    case Minused(e1) => Neg(Meaning(e1))
    case Negated(e1) => Not(Meaning(e1))
    case Bin(op, l, r) => Binary(op, Meaning(l), Meaning(r))
  }

  /** What a symbol looks like to the search for variable names. */
  function WordOf(k: nat): string
    requires k < SYMBOLS
  {
    if FIRST_PROC <= k < TIME then SymName(k)[..|SymName(k)| - 1] else SymName(k)
  }

  /** e is grammatical where operators must bind tighter than prio.  A binary expression associates to the left,
      its right operand binds tighter than its operator, and its left operand no looser; a sign in front takes
      everything up to the end of the expression. */
  ghost predicate Fits(vars: map<string, string>, e: Expr, prio: nat) {
    match e
    case Num(_, num) => IsNumeral(num)
    case Name(k) => k < FIRST_PROC && WordOf(k) !in vars
    case ProcName(k, name, idx) =>
      && FIRST_PROC <= k < SYMBOLS && WordOf(k) !in vars
      && AllIn(name, Letters) && (k == TIME ==> name == "") && AllIn(idx, Digits)
    case Var(name, def) =>
      && name != "" && AllIn(name, Words) && !In(name[0], Digits) && |name| <= MAX_VARNAME
      && name in vars && vars[name] == Text(def) && Fits(vars, def, PRIO_NONE)
    case Paren(e1) => Fits(vars, e1, PRIO_NONE)
    case Minused(e1) => Fits(vars, e1, prio) && !In(Head(Text(e1)), Digits)
    case Negated(e1) => Fits(vars, e1, prio)
    case Bin(op, l, r) =>
      && prio < Prio(op) && Fits(vars, r, Prio(op))
      && Fits(vars, l, prio) && !l.Unary() && (l.Bin? ==> Prio(op) <= Prio(l.op))
  }

  /** How deeply variables nest. */
  function Depth(e: Expr): nat {
    match e
    case Num(_, _) => 0
    case Name(_) => 0
    case ProcName(_, _, _) => 0
    case Var(_, def) => 1 + Depth(def)
    case Paren(e1) => Depth(e1)
    case Minused(e1) => Depth(e1)
    case Negated(e1) => Depth(e1)
    case Bin(_, l, r) => Max(Depth(l), Depth(r))
  }

  /** No token goes on in rest. */
  ghost predicate TokenEnds(rest: string) {
    !In(Head(rest), Words) && Head(rest) != '.' && Head(rest) != '['
  }

  /** No operator that binds tighter than prio follows. */
  ghost predicate NoOp(rest: string, prio: nat) {
    OpOf(Head(rest)) == None || Prio(OpOf(Head(rest)).value) <= prio
  }

  // ----- every expression is parsed as the grammar says ------------------------------------------------------------

  lemma {:induction false} NumRunIs(num: string, rest: string, point: bool)
    requires NumRun(num, point) == |num| && TokenEnds(rest)
    ensures NumRun(num + rest, point) == |num|
  {
    if num == "" {
      assert num + rest == rest;
    } else {
      assert (num + rest)[1..] == num[1..] + rest;
      NumRunIs(num[1..], rest, point || num[0] == '.');
    }
  }

  lemma {:induction false} NumComplete(num: string, rest: string)
    requires IsNumeral(num) && TokenEnds(rest)
    ensures NumLen(num + rest) == |num| && (num + rest)[..|num|] == num && Drop(num + rest, |num|) == rest
  {
    NumRunIs(num, rest, false);
    DropAppend(num, rest);
  }

  lemma {:induction false} IndexComplete(k: nat, name: string, idx: string, rest: string)
    requires AllIn(idx, Digits) && TokenEnds(rest)
    ensures ParseIndex(k, name, IndexText(idx) + rest) == Done(Proc(k, name, Value(idx)), rest)
  {
    if idx == "" {
      assert IndexText(idx) + rest == rest;
    } else {
      var s := IndexText(idx) + rest;
      assert s[1..] == idx + ("]" + rest);
      RunIs(idx, "]" + rest, Digits);
      assert s[1..][..|idx|] == idx;
    }
  }

  lemma {:induction false} EarlyWord(k: nat)
    requires k < 10
    ensures 0 < |WordOf(k)| <= MAX_VARNAME && AllIn(WordOf(k), Words) && In(WordOf(k)[0], Letters)
  {
  }

  lemma {:induction false} LateWord(k: nat)
    requires 10 <= k < SYMBOLS
    ensures 0 < |WordOf(k)| <= MAX_VARNAME && AllIn(WordOf(k), Words) && In(WordOf(k)[0], Letters)
  {
  }

  lemma {:induction false} WordIs(k: nat)
    requires k < SYMBOLS
    ensures 0 < |WordOf(k)| <= MAX_VARNAME && AllIn(WordOf(k), Words) && In(WordOf(k)[0], Letters)
  {
    if k < 10 {
      EarlyWord(k);
    } else {
      LateWord(k);
    }
  }

  lemma {:induction false} WordComplete(k: nat, rest: string)
    requires k < SYMBOLS && (k < FIRST_PROC || k == TIME ==> !In(Head(rest), Words))
    ensures var s, w := SymName(k) + rest, WordOf(k); Run(s, Words) == |w| && s[..|w|] == w
  {
    var tail := if FIRST_PROC <= k < TIME then "." + rest else rest;
    assert SymName(k) + rest == WordOf(k) + tail;
    WordIs(k);
    RunIs(WordOf(k), tail, Words);
  }

  lemma {:induction false} NamedComplete(k: nat, name: string, idx: string, rest: string)
    requires FIRST_PROC <= k < SYMBOLS && AllIn(name, Letters) && AllIn(idx, Digits) && TokenEnds(rest)
             && (k == TIME ==> name == "")
    ensures ParseNamed(k, name + (IndexText(idx) + rest)) == Done(Proc(k, name, Value(idx)), rest)
  {
    var tail := IndexText(idx) + rest;
    IndexComplete(k, name, idx, rest);
    if k == TIME {
      assert name + tail == tail;
    } else {
      assert Head(tail) == '[' || Head(tail) == Head(rest);
      RunIs(name, tail, Letters);
      assert (name + tail)[..|name|] == name;
    }
  }

  /** A symbol is not taken for a variable. */
  lemma {:induction false} SymbolOperand(vars: map<string, string>, depth: nat, k: nat, tail: string, prio: nat)
    requires k < SYMBOLS && WordOf(k) !in vars && (k < FIRST_PROC || k == TIME ==> !In(Head(tail), Words))
    ensures Operand(vars, depth, SymName(k) + tail, prio) == ParseNamed(k, tail)
  {
    var s := SymName(k) + tail;
    WordIs(k);
    WordComplete(k, tail);
    assert Head(s) == WordOf(k)[0];
    FirstMatchIs(tail, 0, k);
  }

  lemma {:induction false} NumOperand(vars: map<string, string>, depth: nat, neg: bool, num: string, rest: string,
                                      prio: nat)
    requires IsNumeral(num) && TokenEnds(rest)
    ensures Operand(vars, depth, Text(Num(neg, num)) + rest, prio) == Done(Const(neg, num), rest)
  {
    NumComplete(num, rest);
    if neg {
      assert (("-" + num) + rest)[1..] == num + rest;
    }
  }

  lemma {:induction false} ProcOperand(vars: map<string, string>, depth: nat, e: Expr, rest: string, prio: nat)
    requires e.ProcName? && Fits(vars, e, prio) && TokenEnds(rest)
    ensures Operand(vars, depth, Text(e) + rest, prio) == Done(Meaning(e), rest)
  {
    var tail := e.name + (IndexText(e.idx) + rest);
    assert Text(e) + rest == SymName(e.k) + tail;
    NamedComplete(e.k, e.name, e.idx, rest);
    if e.k == TIME {
      assert e.name == "" && (Head(tail) == '[' || Head(tail) == Head(rest));
    }
    SymbolOperand(vars, depth, e.k, tail, prio);
  }

  lemma {:induction false} VarOperand(vars: map<string, string>, depth: nat, name: string, t: Term, rest: string,
                                      prio: nat)
    requires name != "" && AllIn(name, Words) && !In(name[0], Digits) && |name| <= MAX_VARNAME && TokenEnds(rest)
    requires name in vars && 0 < depth && Parse(vars, depth - 1, vars[name], PRIO_NONE) == Done(t, "")
    ensures Operand(vars, depth, name + rest, prio) == Done(t, rest)
  {
    RunIs(name, rest, Words);
    assert (name + rest)[..|name|] == name;
  }

  lemma {:induction false} ParenOperand(vars: map<string, string>, depth: nat, inner: string, t: Term, rest: string,
                                        prio: nat)
    requires Parse(vars, depth, inner + (")" + rest), PRIO_NONE) == Done(t, ")" + rest)
    ensures Operand(vars, depth, ("(" + (inner + ")")) + rest, prio) == Done(t, rest)
  {
    assert (("(" + (inner + ")")) + rest)[1..] == inner + (")" + rest);
    assert (")" + rest)[1..] == rest;
  }

  /** A grammatical atom, followed by something that ends it. */
  lemma {:induction false} AtomComplete(vars: map<string, string>, depth: nat, e: Expr, prio: nat, rest: string)
    requires Fits(vars, e, prio) && Depth(e) <= depth && !e.Unary() && !e.Bin? && TokenEnds(rest)
    ensures Operand(vars, depth, Text(e) + rest, prio) == Done(Meaning(e), rest)
    decreases e, 0
  {
    match e
    case Num(neg, num) =>
      NumOperand(vars, depth, neg, num, rest, prio);
    case Name(k) =>
      SymbolOperand(vars, depth, k, rest, prio);
    case ProcName(_, _, _) =>
      ProcOperand(vars, depth, e, rest, prio);
    case Var(name, def) =>
      assert Text(def) + "" == Text(def);
      Complete(vars, depth - 1, def, PRIO_NONE, "");
      VarOperand(vars, depth, name, Meaning(def), rest, prio);
    case Paren(e1) =>
      Complete(vars, depth, e1, PRIO_NONE, ")" + rest);
      ParenOperand(vars, depth, Text(e1), Meaning(e1), rest, prio);
  }

  /** A chain of operands up to some point: the parser stands there with the term of the chain. */
  lemma {:induction false} SpineComplete(vars: map<string, string>, depth: nat, e: Expr, prio: nat, rest: string)
    requires Fits(vars, e, prio) && Depth(e) <= depth && !e.Unary() && TokenEnds(rest)
    requires e.Bin? ==> NoOp(rest, Prio(e.op))
    ensures Parse(vars, depth, Text(e) + rest, prio) == Chain(vars, depth, rest, prio, Meaning(e))
    decreases e, 1
  {
    if e.Bin? {
      var rest' := [OpChar(e.op)] + (Text(e.r) + rest);
      assert Text(e) + rest == Text(e.l) + rest';
      OpOfChar(e.op);
      SpineComplete(vars, depth, e.l, prio, rest');
      assert rest'[1..] == Text(e.r) + rest;
      Complete(vars, depth, e.r, Prio(e.op), rest);
    } else {
      AtomComplete(vars, depth, e, prio, rest);
    }
  }

  /** Every grammatical expression is parsed to its end, as the term it means, whatever ends it. */
  lemma {:induction false} Complete(vars: map<string, string>, depth: nat, e: Expr, prio: nat, rest: string)
    requires Fits(vars, e, prio) && Depth(e) <= depth && TokenEnds(rest) && NoOp(rest, prio)
    ensures Parse(vars, depth, Text(e) + rest, prio) == Done(Meaning(e), rest)
    decreases e, 2
  {
    if e.Unary() {
      assert (Text(e) + rest)[1..] == Text(e.e) + rest;
      Complete(vars, depth, e.e, prio, rest);
      TextNonEmpty(vars, e.e, prio);
    } else {
      SpineComplete(vars, depth, e, prio, rest);
    }
  }

  lemma {:induction false} TextNonEmpty(vars: map<string, string>, e: Expr, prio: nat)
    requires Fits(vars, e, prio)
    ensures Text(e) != ""
  {
    if e.Name? || e.ProcName? {
      WordIs(e.k);
    }
  }

  // ----- nothing else is parsed --------------------------------------------------------------------------------------

  /** Variables have names, and add_var refuses the names of symbols. */
  ghost predicate VarsOk(vars: map<string, string>) {
    "" !in vars && forall k :: 0 <= k < SYMBOLS ==> SymName(k) !in vars
  }

  lemma {:induction false} NumRunSound(s: string, point: bool)
    ensures var n := NumRun(s, point);
            NumRun(s[..n], point) == n && forall i :: 0 <= i < n ==> In(s[i], Digits) || s[i] == '.'
  {
    var n := NumRun(s, point);
    if n != 0 {
      NumRunSound(s[1..], point || s[0] == '.');
      assert s[..n][1..] == s[1..][..n - 1];
    }
  }

  lemma {:induction false} NumSound(s: string)
    requires In(Head(s), Digits)
    ensures IsNumeral(s[..NumLen(s)]) && s == s[..NumLen(s)] + Drop(s, NumLen(s))
  {
    NumRunSound(s, false);
    DropIs(s, NumLen(s));
  }

  lemma {:induction false} Cons(s: string, c: char, a: string, rest: string)
    requires s != "" && s[0] == c && s[1..] == a + rest
    ensures s == ([c] + a) + rest
  {
  }

  lemma {:induction false} Bracketed(s: string, open: char, a: string, close: char, tail: string)
    requires s != "" && s[0] == open && s[1..] == a + tail && tail != "" && tail[0] == close
    ensures s == ([open] + (a + [close])) + tail[1..]
  {
  }

  lemma {:induction false} IndexSound(k: nat, name: string, s: string) returns (idx: string)
    requires ParseIndex(k, name, s).Done?
    ensures AllIn(idx, Digits) && s == IndexText(idx) + ParseIndex(k, name, s).rest
    ensures ParseIndex(k, name, s).t == Proc(k, name, Value(idx))
  {
    idx := "";
    if Head(s) != '[' {
      assert IndexText(idx) + s == s;
    } else {
      var d := Run(s[1..], Digits);
      RunAll(s[1..], Digits);
      idx := s[1..][..d];
      Bracketed(s, '[', idx, ']', Drop(s[1..], d));
    }
  }

  /** A symbol that starts s is not a variable there. */
  lemma {:induction false} SymbolWord(vars: map<string, string>, s: string, k: nat)
    requires VarsOk(vars) && k < SYMBOLS && SymName(k) <= s && s[..Run(s, Words)] !in vars
    ensures WordOf(k) !in vars
  {
    if FIRST_PROC <= k < TIME {
      var rest := s[|SymName(k)|..];
      assert s == SymName(k) + rest;
      WordComplete(k, rest);
    }
  }

  lemma {:induction false} NamedSound(k: nat, s: string) returns (name: string, idx: string)
    requires FIRST_PROC <= k < SYMBOLS && ParseNamed(k, s).Done?
    ensures AllIn(name, Letters) && (k == TIME ==> name == "") && AllIn(idx, Digits)
    ensures s == (name + IndexText(idx)) + ParseNamed(k, s).rest && ParseNamed(k, s).t == Proc(k, name, Value(idx))
  {
    var n := if k == TIME then 0 else Run(s, Letters);
    RunAll(s, Letters);
    name := s[..n];
    var tail := Drop(s, n);
    assert s == name + tail;
    idx := IndexSound(k, name, tail);
    Append3(name, IndexText(idx), ParseNamed(k, s).rest);
  }

  lemma {:induction false} Append3(a: string, b: string, c: string)
    ensures (a + b) + c == a + (b + c)
  {
  }

  lemma {:induction false} SymbolSound(vars: map<string, string>, s: string, prio: nat) returns (e: Expr)
    requires VarsOk(vars) && s[..Run(s, Words)] !in vars && ParseSymbol(s).Done?
    ensures Fits(vars, e, prio) && !e.Unary() && !e.Bin? && Depth(e) == 0
    ensures s == Text(e) + ParseSymbol(s).rest && ParseSymbol(s).t == Meaning(e)
  {
    var k := FirstMatch(s, 0);
    SymbolWord(vars, s, k);
    var s' := Drop(s, |SymName(k)|);
    Start(SymName(k), s);
    if k < FIRST_PROC {
      e := Name(k);
    } else {
      var name, idx := NamedSound(k, s');
      e := ProcName(k, name, idx);
      Append3(SymName(k), name + IndexText(idx), ParseSymbol(s).rest);
    }
  }

  lemma {:induction false} Start(a: string, s: string)
    requires a <= s
    ensures s == a + Drop(s, |a|)
  {
    DropIs(s, |a|);
  }

  lemma {:induction false} VarSound(s: string, n: nat)
    requires n == Run(s, Words) && 0 < n <= MAX_VARNAME && !In(Head(s), Digits)
    ensures var name := s[..n];
            name != "" && AllIn(name, Words) && !In(name[0], Digits) && |name| <= MAX_VARNAME && s == name + Drop(s, n)
  {
    RunAll(s, Words);
  }

  /** A sign in front of an expression. */
  lemma {:induction false} SignSound(vars: map<string, string>, depth: nat, s: string, prio: nat, e1: Expr)
    returns (e: Expr)
    requires Head(s) == '!' || (Head(s) == '-' && !In(Head(s[1..]), Digits))
    requires var r := Parse(vars, depth, s[1..], prio);
             r.Done? && Fits(vars, e1, prio) && Depth(e1) <= depth && s[1..] == Text(e1) + r.rest && r.t == Meaning(e1)
    ensures var r := Operand(vars, depth, s, prio);
            r.Done? && Fits(vars, e, prio) && Depth(e) <= depth && e.Unary() && s == Text(e) + r.rest
              && r.t == Meaning(e) &&
            r.rest == Parse(vars, depth, s[1..], prio).rest
  {
    TextNonEmpty(vars, e1, prio);
    e := if Head(s) == '-' then Minused(e1) else Negated(e1);
    Cons(s, s[0], Text(e1), Parse(vars, depth, s[1..], prio).rest);
  }

  /** A numeral, with or without a sign. */
  lemma {:induction false} NumeralSound(vars: map<string, string>, depth: nat, s: string, prio: nat) returns (e: Expr)
    requires In(Head(s), Digits) || (Head(s) == '-' && In(Head(s[1..]), Digits))
    ensures var r := Operand(vars, depth, s, prio);
            r.Done? && e.Num? && Fits(vars, e, prio) && s == Text(e) + r.rest && r.t == Meaning(e)
  {
    if Head(s) == '-' {
      NumSound(s[1..]);
      e := Num(true, s[1..][..NumLen(s[1..])]);
      Cons(s, '-', e.num, Drop(s[1..], NumLen(s[1..])));
    } else {
      NumSound(s);
      e := Num(false, s[..NumLen(s)]);
    }
  }

  /** Neither sign nor numeral nor parenthesis. */
  ghost predicate AtWord(s: string) {
    Head(s) != '-' && Head(s) != '!' && Head(s) != '(' && !In(Head(s), Digits)
  }

  /** A variable, with the expression its definition is. */
  lemma {:induction false} VariableSound(vars: map<string, string>, depth: nat, s: string, prio: nat, def: Expr)
    returns (e: Expr)
    requires AtWord(s) && Operand(vars, depth, s, prio).Done? && 0 < depth
    requires var n := Run(s, Words);
             && 0 < n && s[..n] in vars && Parse(vars, depth - 1, vars[s[..n]], PRIO_NONE).Done?
             && Fits(vars, def, PRIO_NONE) && Depth(def) <= depth - 1
             && vars[s[..n]] == Text(def) + Parse(vars, depth - 1, vars[s[..n]], PRIO_NONE).rest
             && Parse(vars, depth - 1, vars[s[..n]], PRIO_NONE).t == Meaning(def)
    ensures var r := Operand(vars, depth, s, prio);
            Fits(vars, e, prio) && Depth(e) <= depth && e.Var? && s == Text(e) + r.rest && r.t == Meaning(e)
  {
    var n := Run(s, Words);
    assert Text(def) + "" == Text(def);
    VarSound(s, n);
    e := Var(s[..n], def);
  }

  lemma {:induction false} WordSound(vars: map<string, string>, depth: nat, s: string, prio: nat) returns (e: Expr)
    requires VarsOk(vars) && AtWord(s) && Operand(vars, depth, s, prio).Done?
    ensures var r := Operand(vars, depth, s, prio);
            Fits(vars, e, prio) && Depth(e) <= depth && !e.Bin? && !e.Unary() && s == Text(e) + r.rest
              && r.t == Meaning(e)
    decreases depth, |s|, 0
  {
    var n := Run(s, Words);
    if n != 0 && s[..n] in vars {
      e := Sound(vars, depth - 1, vars[s[..n]], PRIO_NONE);
      e := VariableSound(vars, depth, s, prio, e);
    } else {
      e := SymbolSound(vars, s, prio);
    }
  }

  lemma {:induction false} ParenSound(vars: map<string, string>, depth: nat, s: string, prio: nat, e1: Expr)
    returns (e: Expr)
    requires Head(s) == '(' && Operand(vars, depth, s, prio).Done?
    requires var r := Parse(vars, depth, s[1..], PRIO_NONE);
             r.Done? && Fits(vars, e1, PRIO_NONE) && Depth(e1) <= depth && s[1..] == Text(e1) + r.rest
               && r.t == Meaning(e1)
    ensures var r := Operand(vars, depth, s, prio);
            Fits(vars, e, prio) && Depth(e) <= depth && e.Paren? && s == Text(e) + r.rest && r.t == Meaning(e)
  {
    e := Paren(e1);
    Bracketed(s, '(', Text(e1), ')', Parse(vars, depth, s[1..], PRIO_NONE).rest);
  }

  /** What the first operand of a successful parse is. */
  lemma {:induction false} OperandSound(vars: map<string, string>, depth: nat, s: string, prio: nat) returns (e: Expr)
    requires VarsOk(vars) && Operand(vars, depth, s, prio).Done?
    ensures var r := Operand(vars, depth, s, prio);
            && Fits(vars, e, prio) && Depth(e) <= depth && !e.Bin? && s == Text(e) + r.rest && r.t == Meaning(e)
            && (e.Unary() ==> NoOp(r.rest, prio))
    decreases depth, |s|, 1
  {
    if In(Head(s), Digits) || (Head(s) == '-' && In(Head(s[1..]), Digits)) {
      e := NumeralSound(vars, depth, s, prio);
    } else if Head(s) == '-' || Head(s) == '!' {
      e := Sound(vars, depth, s[1..], prio);
      e := SignSound(vars, depth, s, prio, e);
    } else if Head(s) == '(' {
      e := Sound(vars, depth, s[1..], PRIO_NONE);
      e := ParenSound(vars, depth, s, prio, e);
    } else {
      e := WordSound(vars, depth, s, prio);
    }
  }

  lemma {:induction false} Link(s: string, c: char, a: string, b: string, rest: string)
    requires s != "" && s[0] == c && s[1..] == b + rest
    ensures a + s == (a + ([c] + b)) + rest
  {
  }

  /** One round of the operator loop. */
  lemma {:induction false} LinkSound(vars: map<string, string>, depth: nat, s: string, prio: nat, op: Op, e0: Expr,
                                     right: Expr, rest: string)
    requires Fits(vars, e0, prio) && Depth(e0) <= depth && !e0.Unary() && (e0.Bin? ==> NoOp(s, Prio(e0.op)))
    requires s != "" && OpOf(s[0]) == Some(op) && prio < Prio(op)
    requires Fits(vars, right, Prio(op)) && Depth(right) <= depth && s[1..] == Text(right) + rest
    ensures var e := Bin(op, e0, right); Fits(vars, e, prio) && Depth(e) <= depth && Text(e0) + s == Text(e) + rest
  {
    Link(s, OpChar(op), Text(e0), Text(right), rest);
  }

  /** What the operator loop makes of an expression it starts with. */
  lemma {:induction false} ChainSound(vars: map<string, string>, depth: nat, s: string, prio: nat, e0: Expr)
    returns (e: Expr)
    requires VarsOk(vars) && Fits(vars, e0, prio) && Depth(e0) <= depth && !e0.Unary()
             && (e0.Bin? ==> NoOp(s, Prio(e0.op)))
    requires Chain(vars, depth, s, prio, Meaning(e0)).Done?
    ensures var r := Chain(vars, depth, s, prio, Meaning(e0));
            && Fits(vars, e, prio) && Depth(e) <= depth && Text(e0) + s == Text(e) + r.rest && r.t == Meaning(e)
               && NoOp(r.rest, prio)
    decreases depth, |s|, 0
  {
    e := e0;
    var op := OpOf(Head(s));
    if op.Some? && prio < Prio(op.value) {
      var right := Sound(vars, depth, s[1..], Prio(op.value));
      var r := Parse(vars, depth, s[1..], Prio(op.value));
      LinkSound(vars, depth, s, prio, op.value, e0, right, r.rest);
      var e1 := Bin(op.value, e0, right);
      assert Chain(vars, depth, s, prio, Meaning(e0)) == Chain(vars, depth, r.rest, prio, Meaning(e1));
      e := ChainSound(vars, depth, r.rest, prio, e1);
    }
  }

  /** Whatever is parsed is a grammatical expression, taken as far as it goes. */
  lemma {:induction false} Sound(vars: map<string, string>, depth: nat, s: string, prio: nat) returns (e: Expr)
    requires VarsOk(vars) && Parse(vars, depth, s, prio).Done?
    ensures var r := Parse(vars, depth, s, prio);
            && Fits(vars, e, prio) && Depth(e) <= depth && s == Text(e) + r.rest && r.t == Meaning(e)
               && NoOp(r.rest, prio)
    decreases depth, |s|, 2
  {
    e := OperandSound(vars, depth, s, prio);
    if !e.Unary() {
      e := ChainSound(vars, depth, Operand(vars, depth, s, prio).rest, prio, e);
    }
  }

  // ----- whole rules -------------------------------------------------------------------------------------------------

  /** s is a grammatical expression that means t. */
  ghost predicate Spells(vars: map<string, string>, e: Expr, s: string, t: Term) {
    Fits(vars, e, PRIO_NONE) && Text(e) == s && Meaning(e) == t
  }

  /** A text is accepted as t exactly when it is a grammatical expression that means t: precedence and associativity
      are those of the grammar, and nothing else is accepted. */
  lemma {:induction false} AcceptedIff(vars: map<string, string>, depth: nat, s: string, t: Term)
    requires VarsOk(vars)
    ensures Parse(vars, depth, s, PRIO_NONE) == Done(t, "") <==> exists e :: Spells(vars, e, s, t) && Depth(e) <= depth
  {
    if Parse(vars, depth, s, PRIO_NONE) == Done(t, "") {
      var e := Sound(vars, depth, s, PRIO_NONE);
      assert Text(e) + "" == Text(e);
      assert Spells(vars, e, s, t) && Depth(e) <= depth;
    }
    if e :| Spells(vars, e, s, t) && Depth(e) <= depth {
      Accepted(vars, depth, e);
    }
  }

  lemma {:induction false} Accepted(vars: map<string, string>, depth: nat, e: Expr)
    requires Fits(vars, e, PRIO_NONE) && Depth(e) <= depth
    ensures Parse(vars, depth, Text(e), PRIO_NONE) == Done(Meaning(e), "")
  {
    assert Text(e) + "" == Text(e);
    Complete(vars, depth, e, PRIO_NONE, "");
  }

  // ----- precedence, character by character ------------------------------------------------------------------------

  /** Operator op is written c. */
  ghost predicate Stands(c: char, op: Op) {
    match op
    case Or => c == '|'
    case And => c == '&'
    case Greater => c == '>'
    case Lesser => c == '<'
    case Plus => c == '+'
    case Minus => c == '-'
    case Mult => c == '*'
    case Div => c == '/'
  }

  /** Operator d binds tighter than operator c. */
  ghost predicate Tighter(d: char, c: char) {
    || (c == '|' && d in "&<>+-*/")
    || (c == '&' && d in "<>+-*/")
    || (c in "<>" && d in "+-*/")
    || (c in "+-" && d in "*/")
  }

  lemma {:induction false} TighterIs(c: char, p: Op, d: char, q: Op)
    requires Stands(c, p) && Stands(d, q)
    ensures OpChar(p) == c && OpChar(q) == d && (Tighter(d, c) <==> Prio(p) < Prio(q)) && PRIO_NONE < Prio(p)
  {
  }

  /** A numeral: a digit, then digits and at most one point. */
  lemma {:induction false} NumeralIs(a: string)
    ensures IsNumeral(a) <==>
              && a != "" && '0' <= a[0] <= '9'
              && (forall i :: 0 <= i < |a| ==> '0' <= a[i] <= '9' || a[i] == '.')
              && (forall i, j :: 0 <= i < j < |a| ==> a[i] != '.' || a[j] != '.')
  {
    NumRunAll(a, false);
  }

  /** A run of digits, and of one point if it is allowed. */
  ghost predicate NumChars(a: string, point: bool) {
    && (forall i :: 0 <= i < |a| ==> '0' <= a[i] <= '9' || (a[i] == '.' && !point))
    && (forall i, j :: 0 <= i < j < |a| ==> a[i] != '.' || a[j] != '.')
  }

  lemma {:induction false} NumRunAll(a: string, point: bool)
    ensures NumRun(a, point) == |a| <==> NumChars(a, point)
  {
    if a != "" {
      var b, seen := a[1..], point || a[0] == '.';
      NumRunAll(b, seen);
      if NumChars(a, point) {
        assert forall i :: 0 <= i < |b| ==> b[i] == a[i + 1];
        assert NumChars(b, seen);
      }
      if NumRun(a, point) == |a| {
        assert NumChars(b, seen);
        assert forall i :: 0 < i < |a| ==> a[i] == b[i - 1];
      }
    }
  }

  /** e is grammatical behind an operator of class prio, is written s and means t; no variable stands in it. */
  ghost predicate Reads(vars: map<string, string>, e: Expr, prio: nat, s: string, t: Term) {
    Fits(vars, e, prio) && Depth(e) == 0 && Text(e) == s && Meaning(e) == t
  }

  lemma {:induction false} NumReads(vars: map<string, string>, neg: bool, x: string, prio: nat)
    requires IsNumeral(x)
    ensures Reads(vars, Num(neg, x), prio, if neg then "-" + x else x, Const(neg, x))
  {
  }

  lemma {:induction false} BinReads(vars: map<string, string>, op: Op, l: Expr, r: Expr, prio: nat,
                                    s: string, t: Term, s': string, t': Term)
    requires Reads(vars, l, prio, s, t) && Reads(vars, r, Prio(op), s', t') && prio < Prio(op)
    requires !l.Unary() && (l.Bin? ==> Prio(op) <= Prio(l.op))
    ensures Reads(vars, Bin(op, l, r), prio, s + ([OpChar(op)] + s'), Binary(op, t, t'))
  {
  }

  lemma {:induction false} SignReads(vars: map<string, string>, e: Expr, prio: nat, s: string, t: Term)
    requires Reads(vars, e, prio, s, t)
    ensures Reads(vars, Negated(e), prio, "!" + s, Not(t))
    ensures !In(Head(s), Digits) ==> Reads(vars, Minused(e), prio, "-" + s, Neg(t))
  {
  }

  lemma {:induction false} ParenReads(vars: map<string, string>, e: Expr, prio: nat, s: string, t: Term)
    requires Reads(vars, e, PRIO_NONE, s, t)
    ensures Reads(vars, Paren(e), prio, "(" + (s + ")"), t)
  {
  }

  lemma {:induction false} ReadsParse(vars: map<string, string>, depth: nat, e: Expr, s: string, t: Term)
    requires Reads(vars, e, PRIO_NONE, s, t)
    ensures Parse(vars, depth, s, PRIO_NONE) == Done(t, "")
  {
    Accepted(vars, depth, e);
  }

  lemma {:induction false} Associate(x: string, c: char, y: string, rest: string)
    ensures (x + ([c] + y)) + rest == x + ([c] + (y + rest))
  {
  }

  /** A numeral and an operator in front of something that binds tighter. */
  lemma {:induction false} RightFirst(vars: map<string, string>, depth: nat, x: string, c: char, p: Op,
                                      e: Expr, s: string, t: Term)
    requires IsNumeral(x) && Stands(c, p) && Reads(vars, e, Prio(p), s, t)
    ensures Parse(vars, depth, x + ([c] + s), PRIO_NONE) == Done(Binary(p, Const(false, x), t), "")
  {
    TighterIs(c, p, c, p);
    NumReads(vars, false, x, PRIO_NONE);
    BinReads(vars, p, Num(false, x), e, PRIO_NONE, x, Const(false, x), s, t);
    ReadsParse(vars, depth, Bin(p, Num(false, x), e), x + ([c] + s), Binary(p, Const(false, x), t));
  }

  /** The same with an operator behind it that does not bind tighter. */
  lemma {:induction false} LeftFirst(vars: map<string, string>, depth: nat, x: string, c: char, p: Op,
                                     e: Expr, s: string, t: Term, d: char, q: Op, z: string)
    requires IsNumeral(x) && IsNumeral(z) && Stands(c, p) && Stands(d, q) && Reads(vars, e, Prio(p), s, t)
    requires !Tighter(d, c)
    ensures Parse(vars, depth, x + ([c] + (s + ([d] + z))), PRIO_NONE) ==
            Done(Binary(q, Binary(p, Const(false, x), t), Const(false, z)), "")
  {
    TighterIs(c, p, d, q);
    TighterIs(d, q, c, p);
    NumReads(vars, false, x, PRIO_NONE);
    NumReads(vars, false, z, Prio(q));
    var l, t' := Bin(p, Num(false, x), e), Binary(p, Const(false, x), t);
    BinReads(vars, p, Num(false, x), e, PRIO_NONE, x, Const(false, x), s, t);
    BinReads(vars, q, l, Num(false, z), PRIO_NONE, x + ([c] + s), t', z, Const(false, z));
    Associate(x, c, s, [d] + z);
    ReadsParse(vars, depth, Bin(q, l, Num(false, z)), x + ([c] + (s + ([d] + z))), Binary(q, t', Const(false, z)));
  }

  /** Two operators: the tighter one is applied first, and of two in one class the left one. */
  lemma {:induction false} TwoOperators(vars: map<string, string>, depth: nat, x: string, c: char, p: Op, y: string,
                                        d: char, q: Op, z: string)
    requires IsNumeral(x) && IsNumeral(y) && IsNumeral(z) && Stands(c, p) && Stands(d, q)
    ensures Parse(vars, depth, x + ([c] + (y + ([d] + z))), PRIO_NONE) ==
            Done(if Tighter(d, c) then Binary(p, Const(false, x), Binary(q, Const(false, y), Const(false, z)))
                 else Binary(q, Binary(p, Const(false, x), Const(false, y)), Const(false, z)), "")
  {
    NumReads(vars, false, y, Prio(p));
    if Tighter(d, c) {
      TighterIs(c, p, d, q);
      NumReads(vars, false, z, Prio(q));
      BinReads(vars, q, Num(false, y), Num(false, z), Prio(p), y, Const(false, y), z, Const(false, z));
      RightFirst(vars, depth, x, c, p, Bin(q, Num(false, y), Num(false, z)), y + ([d] + z),
                 Binary(q, Const(false, y), Const(false, z)));
    } else {
      LeftFirst(vars, depth, x, c, p, Num(false, y), y, Const(false, y), d, q, z);
    }
  }

  /** A sign in front takes the whole expression, but for the minus of a numeral. */
  lemma {:induction false} SignInFront(vars: map<string, string>, depth: nat, x: string, c: char, p: Op, y: string)
    requires IsNumeral(x) && IsNumeral(y) && Stands(c, p)
    ensures Parse(vars, depth, "!" + (x + ([c] + y)), PRIO_NONE) ==
            Done(Not(Binary(p, Const(false, x), Const(false, y))), "")
    ensures Parse(vars, depth, "-" + (("(" + (x + ")")) + ([c] + y)), PRIO_NONE) ==
            Done(Neg(Binary(p, Const(false, x), Const(false, y))), "")
    ensures Parse(vars, depth, ("-" + x) + ([c] + y), PRIO_NONE) ==
            Done(Binary(p, Const(true, x), Const(false, y)), "")
  {
    TighterIs(c, p, c, p);
    NumReads(vars, false, x, PRIO_NONE);
    NumReads(vars, true, x, PRIO_NONE);
    NumReads(vars, false, y, Prio(p));
    ParenReads(vars, Num(false, x), PRIO_NONE, x, Const(false, x));
    var r, u := Num(false, y), Const(false, y);
    BinReads(vars, p, Num(false, x), r, PRIO_NONE, x, Const(false, x), y, u);
    BinReads(vars, p, Paren(Num(false, x)), r, PRIO_NONE, "(" + (x + ")"), Const(false, x), y, u);
    BinReads(vars, p, Num(true, x), r, PRIO_NONE, "-" + x, Const(true, x), y, u);
    var t, s, s' := Binary(p, Const(false, x), u), x + ([c] + y), ("(" + (x + ")")) + ([c] + y);
    SignReads(vars, Bin(p, Num(false, x), r), PRIO_NONE, s, t);
    SignReads(vars, Bin(p, Paren(Num(false, x)), r), PRIO_NONE, s', t);
    assert Head(s') == '(';
    ReadsParse(vars, depth, Negated(Bin(p, Num(false, x), r)), "!" + s, Not(t));
    ReadsParse(vars, depth, Minused(Bin(p, Paren(Num(false, x)), r)), "-" + s', Neg(t));
    ReadsParse(vars, depth, Bin(p, Num(true, x), r), ("-" + x) + ([c] + y), Binary(p, Const(true, x), u));
  }

  /** Behind an operator a sign takes what binds tighter than that operator. */
  lemma {:induction false} SignInside(vars: map<string, string>, depth: nat, x: string, c: char, p: Op, y: string,
                                      d: char, q: Op, z: string)
    requires IsNumeral(x) && IsNumeral(y) && IsNumeral(z) && Stands(c, p) && Stands(d, q)
    ensures Parse(vars, depth, x + ([c] + ("!" + (y + ([d] + z)))), PRIO_NONE) ==
            Done(if Tighter(d, c) then Binary(p, Const(false, x), Not(Binary(q, Const(false, y), Const(false, z))))
                 else Binary(q, Binary(p, Const(false, x), Not(Const(false, y))), Const(false, z)), "")
  {
    NumReads(vars, false, y, Prio(p));
    if Tighter(d, c) {
      TighterIs(c, p, d, q);
      NumReads(vars, false, z, Prio(q));
      var e, s, t := Bin(q, Num(false, y), Num(false, z)), y + ([d] + z), Binary(q, Const(false, y), Const(false, z));
      BinReads(vars, q, Num(false, y), Num(false, z), Prio(p), y, Const(false, y), z, Const(false, z));
      SignReads(vars, e, Prio(p), s, t);
      RightFirst(vars, depth, x, c, p, Negated(e), "!" + s, Not(t));
    } else {
      SignReads(vars, Num(false, y), Prio(p), y, Const(false, y));
      assert ("!" + y) + ([d] + z) == "!" + (y + ([d] + z));
      LeftFirst(vars, depth, x, c, p, Negated(Num(false, y)), "!" + y, Not(Const(false, y)), d, q, z);
    }
  }

  /** The value of a kernel counter, some intervals ago. */
  lemma {:induction false} CounterValue(vars: map<string, string>, depth: nat, name: string, idx: string)
    requires "meminfo" !in vars && AllIn(name, Letters) && AllIn(idx, Digits) && idx != ""
    ensures Parse(vars, depth, "meminfo." + (name + ("[" + (idx + "]"))), PRIO_NONE) ==
            Done(Proc(FIRST_PROC, name, Value(idx)), "")
  {
    assert WordOf(FIRST_PROC) == "meminfo";
    Accepted(vars, depth, ProcName(FIRST_PROC, name, idx));
  }

  /** The index is a decimal number. */
  lemma {:induction false} ValueAppend(ds: string, c: char)
    requires '0' <= c <= '9'
    ensures Value("") == 0 && Value(ds + [c]) == 10 * Value(ds) + (c as int - '0' as int)
  {
    ValuePrefix(ds, [c], |ds|);
  }

  /** Names of variables have up to 128 characters. */
  lemma {:induction false} VariableName(vars: map<string, string>, depth: nat, name: string, x: string)
    requires name in vars && vars[name] == x && IsNumeral(x) && 0 < depth
    requires name != "" && AllIn(name, Words) && !In(name[0], Digits)
    ensures Parse(vars, depth, name, PRIO_NONE) == if |name| <= 128 then Done(Const(false, x), "") else Fail
  {
    if |name| <= 128 {
      NumReads(vars, false, x, PRIO_NONE);
      assert Fits(vars, Var(name, Num(false, x)), PRIO_NONE);
      Accepted(vars, depth, Var(name, Num(false, x)));
    } else {
      assert name + "" == name;
      RunIs(name, "", Words);
    }
  }

  // ----- what follows from the grammar -------------------------------------------------------------------------------

  /** The grammar is unambiguous. */
  lemma {:induction false} Unambiguous(vars: map<string, string>, e: Expr, e': Expr)
    requires Fits(vars, e, PRIO_NONE) && Fits(vars, e', PRIO_NONE) && Text(e) == Text(e')
    ensures Meaning(e) == Meaning(e')
  {
    Accepted(vars, Max(Depth(e), Depth(e')), e);
    Accepted(vars, Max(Depth(e), Depth(e')), e');
  }

  // ----- variables ---------------------------------------------------------------------------------------------------

  /** Every variable replaced by its definition in parentheses. */
  function Expand(e: Expr): Expr {
    match e
    case Var(_, def) => Paren(Expand(def))
    case Paren(e1) => Paren(Expand(e1))
    case Minused(e1) => Minused(Expand(e1))
    case Negated(e1) => Negated(Expand(e1))
    case Bin(op, l, r) => Bin(op, Expand(l), Expand(r))
    case _ => e
  }

  lemma {:induction false} ExpandFits(vars: map<string, string>, e: Expr, prio: nat)
    requires Fits(vars, e, prio)
    ensures Fits(map[], Expand(e), prio) && Meaning(Expand(e)) == Meaning(e) && Depth(Expand(e)) == 0
    ensures In(Head(Text(Expand(e))), Digits) == In(Head(Text(e)), Digits)
  {
    match e
    case Var(_, def) => ExpandFits(vars, def, PRIO_NONE);
    case Paren(e1) => ExpandFits(vars, e1, PRIO_NONE);
    case Minused(e1) => ExpandFits(vars, e1, prio);
    case Negated(e1) => ExpandFits(vars, e1, prio);
    case Bin(op, l, r) =>
      ExpandFits(vars, l, prio);
      ExpandFits(vars, r, Prio(op));
      TextNonEmpty(vars, l, prio);
      TextNonEmpty(map[], Expand(l), prio);
      assert Head(Text(e)) == Head(Text(l)) && Head(Text(Expand(e))) == Head(Text(Expand(l)));
    case _ =>
  }

  /** A rule with variables means what it means with every variable replaced by its definition in parentheses. */
  lemma {:induction false} VariablesExpand(vars: map<string, string>, depth: nat, s: string) returns (e: Expr)
    requires VarsOk(vars) && Parse(vars, depth, s, PRIO_NONE).Done? && Parse(vars, depth, s, PRIO_NONE).rest == ""
    ensures Fits(vars, e, PRIO_NONE) && Text(e) == s
    ensures Parse(map[], 0, Text(Expand(e)), PRIO_NONE) == Parse(vars, depth, s, PRIO_NONE)
  {
    e := Sound(vars, depth, s, PRIO_NONE);
    assert Text(e) + "" == Text(e);
    ExpandFits(vars, e, PRIO_NONE);
    Accepted(map[], 0, Expand(e));
  }

  /** Allowing for deeper nesting does not change an accepted rule. */
  lemma {:induction false} DepthIrrelevant(vars: map<string, string>, depth: nat, depth': nat, s: string)
    requires VarsOk(vars) && depth <= depth'
    requires Parse(vars, depth, s, PRIO_NONE).Done? && Parse(vars, depth, s, PRIO_NONE).rest == ""
    ensures Parse(vars, depth', s, PRIO_NONE) == Parse(vars, depth, s, PRIO_NONE)
  {
    var e := Sound(vars, depth, s, PRIO_NONE);
    assert Text(e) + "" == Text(e);
    Accepted(vars, depth', e);
  }

  // ----- circular definitions ----------------------------------------------------------------------------------------

  /** A text read without looking into definitions: whether it is an expression, the text behind it, and the variables
      that stand as operands in it, up to the first error. */
  datatype Skim = Skim(ok: bool, rest: string, uses: set<string>)

  ghost function SkimOperand(vars: map<string, string>, s: string, prio: nat): (k: Skim)
    ensures k.ok ==> |k.rest| < |s|
    ensures forall v :: v in k.uses ==> v in vars
    decreases |s|, 0
  {
    if Head(s) == '-' && In(Head(s[1..]), Digits) then Skim(true, Drop(s[1..], NumLen(s[1..])), {})
    else if Head(s) == '-' || Head(s) == '!' then SkimTerm(vars, s[1..], prio)
    else if In(Head(s), Digits) then Skim(true, Drop(s, NumLen(s)), {})
    else if Head(s) == '(' then
      var k := SkimTerm(vars, s[1..], PRIO_NONE);
      if k.ok && Head(k.rest) == ')' then k.(rest := k.rest[1..]) else k.(ok := false)
    else
      var n := Run(s, Words);
      if MAX_VARNAME < n then Skim(false, "", {})
      else if n != 0 && s[..n] in vars then Skim(true, Drop(s, n), {s[..n]})
      else match ParseSymbol(s)
        case Done(_, rest) => Skim(true, rest, {})
        case _ => Skim(false, "", {})
  }

  ghost function SkimTerm(vars: map<string, string>, s: string, prio: nat): (k: Skim)
    ensures k.ok ==> |k.rest| < |s|
    ensures forall v :: v in k.uses ==> v in vars
    decreases |s|, 1
  {
    var k := SkimOperand(vars, s, prio);
    if !k.ok then k else
      var c := SkimChain(vars, k.rest, prio);
      c.(uses := k.uses + c.uses)
  }

  ghost function SkimChain(vars: map<string, string>, s: string, prio: nat): (k: Skim)
    ensures k.ok ==> |k.rest| <= |s|
    ensures forall v :: v in k.uses ==> v in vars
    decreases |s|, 0
  {
    match OpOf(Head(s))
    case None => Skim(true, s, {})
    case Some(op) =>
      if prio >= Prio(op) then Skim(true, s, {}) else
        var r := SkimTerm(vars, s[1..], Prio(op));
        if !r.ok then r else
          var c := SkimChain(vars, r.rest, prio);
          c.(uses := r.uses + c.uses)
  }

  /** The definition of v is a whole expression, with one level of nesting less. */
  ghost predicate Resolved(vars: map<string, string>, depth: nat, v: string) {
    v in vars && 0 < depth && Parse(vars, depth - 1, vars[v], PRIO_NONE).Done?
  }

  /** The definition of v nests too deeply. */
  ghost predicate Blocked(vars: map<string, string>, depth: nat, v: string) {
    v in vars && (depth == 0 || Parse(vars, depth - 1, vars[v], PRIO_NONE).Deep?)
  }

  /** The result of parsing and what skimming the same text says about it: a success resolves every variable used, and
      nesting too deep comes from one of them. */
  ghost predicate Explains(vars: map<string, string>, depth: nat, r: Result, k: Skim) {
    && (r.Done? ==> k.ok && k.rest == r.rest && forall v :: v in k.uses ==> Resolved(vars, depth, v))
    && (r.Deep? ==> exists v :: v in k.uses && Blocked(vars, depth, v))
  }

  lemma {:induction false} OperandSkimmed(vars: map<string, string>, depth: nat, s: string, prio: nat)
    ensures Explains(vars, depth, Operand(vars, depth, s, prio), SkimOperand(vars, s, prio))
    decreases |s|, 0
  {
    if Head(s) == '-' && In(Head(s[1..]), Digits) {
    } else if Head(s) == '-' || Head(s) == '!' {
      TermSkimmed(vars, depth, s[1..], prio);
    } else if In(Head(s), Digits) {
    } else if Head(s) == '(' {
      TermSkimmed(vars, depth, s[1..], PRIO_NONE);
    } else {
      WordSkimmed(vars, depth, s, prio);
    }
  }

  lemma {:induction false} WordSkimmed(vars: map<string, string>, depth: nat, s: string, prio: nat)
    requires AtWord(s)
    ensures Explains(vars, depth, Operand(vars, depth, s, prio), SkimOperand(vars, s, prio))
  {
    var n := Run(s, Words);
    if n <= MAX_VARNAME && n != 0 && s[..n] in vars {
      assert s[..n] in SkimOperand(vars, s, prio).uses;
    } else {
      assert !ParseSymbol(s).Deep?;
    }
  }

  lemma {:induction false} TermSkimmed(vars: map<string, string>, depth: nat, s: string, prio: nat)
    ensures Explains(vars, depth, Parse(vars, depth, s, prio), SkimTerm(vars, s, prio))
    decreases |s|, 1
  {
    OperandSkimmed(vars, depth, s, prio);
    var o := Operand(vars, depth, s, prio);
    if o.Done? {
      ChainSkimmed(vars, depth, o.rest, prio, o.t);
    }
  }

  lemma {:induction false} ChainSkimmed(vars: map<string, string>, depth: nat, s: string, prio: nat, left: Term)
    ensures Explains(vars, depth, Chain(vars, depth, s, prio, left), SkimChain(vars, s, prio))
    decreases |s|, 0
  {
    var op := OpOf(Head(s));
    if op.Some? && prio < Prio(op.value) {
      TermSkimmed(vars, depth, s[1..], Prio(op.value));
      var right := Parse(vars, depth, s[1..], Prio(op.value));
      if right.Done? {
        ChainSkimmed(vars, depth, right.rest, prio, Binary(op.value, left, right.t));
      }
    }
  }

  /** The variables a rule or definition uses. */
  ghost function Uses(vars: map<string, string>, s: string): set<string> {
    SkimTerm(vars, s, PRIO_NONE).uses
  }

  /** s uses the first variable of c, and the definition of each uses the next. */
  ghost predicate IsChain(vars: map<string, string>, s: string, c: seq<string>)
    decreases |c|
  {
    c == [] || (c[0] in Uses(vars, s) && c[0] in vars && IsChain(vars, vars[c[0]], c[1..]))
  }

  /** Following uses from s leads to some variable twice. */
  ghost predicate Circular(vars: map<string, string>, s: string) {
    exists c, i, j :: IsChain(vars, s, c) && 0 <= i < j < |c| && c[i] == c[j]
  }

  lemma {:induction false} DeepChain(vars: map<string, string>, depth: nat, s: string) returns (c: seq<string>)
    requires Parse(vars, depth, s, PRIO_NONE).Deep?
    ensures |c| == depth + 1 && IsChain(vars, s, c)
    decreases depth
  {
    TermSkimmed(vars, depth, s, PRIO_NONE);
    var v :| v in Uses(vars, s) && Blocked(vars, depth, v);
    assert Blocked(vars, depth, v);
    var rest: seq<string> := [];
    if 0 < depth {
      rest := DeepChain(vars, depth - 1, vars[v]);
    }
    c := [v] + rest;
    assert c[1..] == rest;
  }

  lemma {:induction false} ChainAt(vars: map<string, string>, s: string, c: seq<string>, i: nat)
    requires IsChain(vars, s, c) && i < |c|
    ensures c[i] in vars && IsChain(vars, vars[c[i]], c[i + 1..])
    decreases i
  {
    if i != 0 {
      ChainAt(vars, vars[c[0]], c[1..], i - 1);
      assert c[1..][i..] == c[i + 1..];
    }
  }

  /** More names than there are variables: one comes twice. */
  lemma {:induction false} Repeats(c: seq<string>, names: set<string>) returns (i: nat, j: nat)
    requires (forall n :: 0 <= n < |c| ==> c[n] in names) && |names| < |c|
    ensures i < j < |c| && c[i] == c[j]
  {
    if k :| 1 <= k < |c| && c[k] == c[0] {
      i, j := 0, k;
    } else {
      i, j := Repeats(c[1..], names - {c[0]});
      i, j := i + 1, j + 1;
    }
  }

  /** Definitions that are not circular are always resolved: nesting as deep as there are variables is enough. */
  lemma {:induction false} NeverDeep(vars: map<string, string>, depth: nat, s: string)
    requires !Circular(vars, s) && |vars| <= depth
    ensures !Parse(vars, depth, s, PRIO_NONE).Deep?
  {
    if Parse(vars, depth, s, PRIO_NONE).Deep? {
      var c := DeepChain(vars, depth, s);
      forall n | 0 <= n < |c|
        ensures c[n] in vars.Keys
      {
        ChainAt(vars, s, c, n);
      }
      var i, j := Repeats(c, vars.Keys);
      assert false;
    }
  }

  /** In a rule that is accepted, every variable along a chain is resolved, one level deeper each. */
  lemma {:induction false} ResolvedAt(vars: map<string, string>, depth: nat, s: string, c: seq<string>, i: nat)
    requires Parse(vars, depth, s, PRIO_NONE).Done? && IsChain(vars, s, c) && i < |c|
    ensures i < depth && c[i] in vars && Parse(vars, depth - 1 - i, vars[c[i]], PRIO_NONE).Done?
    decreases i
  {
    TermSkimmed(vars, depth, s, PRIO_NONE);
    assert Resolved(vars, depth, c[0]);
    if i != 0 {
      ResolvedAt(vars, depth - 1, vars[c[0]], c[1..], i - 1);
    }
  }

  /** A definition that is resolved does not lead back to its own variable. */
  lemma {:induction false} NoLoop(vars: map<string, string>, depth: nat, v: string, c: seq<string>, i: nat)
    requires v in vars && Parse(vars, depth, vars[v], PRIO_NONE).Done?
    requires IsChain(vars, vars[v], c) && i < |c| && c[i] == v
    ensures false
    decreases depth
  {
    ResolvedAt(vars, depth, vars[v], c, i);
    NoLoop(vars, depth - 1 - i, v, c, i);
  }

  /** Only definitions that are not circular are resolved. */
  lemma {:induction false} ResolvedNotCircular(vars: map<string, string>, depth: nat, s: string)
    requires Parse(vars, depth, s, PRIO_NONE).Done?
    ensures !Circular(vars, s)
  {
    if Circular(vars, s) {
      var c, i, j :| IsChain(vars, s, c) && 0 <= i < j < |c| && c[i] == c[j];
      ResolvedAt(vars, depth, s, c, i);
      ChainAt(vars, s, c, i);
      NoLoop(vars, depth - 1 - i, c[i], c[i + 1..], j - i - 1);
    }
  }

  /** For a rule without syntax errors: its variables cannot be resolved if and only if they are circular. */
  lemma {:induction false} DeepIffCircular(vars: map<string, string>, depth: nat, s: string)
    requires |vars| <= depth && !Parse(vars, depth, s, PRIO_NONE).Fail?
    ensures Parse(vars, depth, s, PRIO_NONE).Deep? <==> Circular(vars, s)
  {
    if Parse(vars, depth, s, PRIO_NONE).Done? {
      ResolvedNotCircular(vars, depth, s);
    } else if !Circular(vars, s) {
      NeverDeep(vars, depth, s);
    }
  }

  /** A variable may have the name of the value it stands for: a name behind meminfo. is no use of a variable. */
  lemma {:induction false} SameNameExample()
    ensures var vars := map["Cached" := "meminfo.Cached"];
            Parse(vars, 1, "Cached", PRIO_NONE) == Done(Proc(FIRST_PROC, "Cached", 0), "") && !Circular(vars, "Cached")
  {
    var vars := map["Cached" := "meminfo.Cached"];
    var e := Var("Cached", ProcName(FIRST_PROC, "Cached", ""));
    assert Text(e.def) == "meminfo.Cached";
    assert Fits(vars, e, PRIO_NONE);
    Accepted(vars, 1, e);
    ResolvedNotCircular(vars, 1, "Cached");
  }

  // ----- printing ----------------------------------------------------------------------------------------------------

  /** print_term. */
  function Print(t: Term): string {
    match t
    case Const(neg, num) => if neg then "-" + num else num
    case Symbol(k) => if k < SYMBOLS then SymName(k) else ""
    case Proc(k, name, index) => if k < SYMBOLS then SymName(k) + (name + ("[" + (Decimal(index) + "]"))) else ""
    case Neg(t1) => "-(" + (Print(t1) + ")")
    case Not(t1) => "!(" + (Print(t1) + ")")
    case Binary(op, l, r) => "(" + (Print(l) + (") " + ([OpChar(op)] + (" (" + (Print(r) + ")")))))
  }

  function Digit(n: nat): char
    requires n < 10
  {
    ('0' as int + n) as char
  }

  function Decimal(n: nat): (s: string)
    ensures s != ""
  {
    if n < 10 then [Digit(n)] else Decimal(n / 10) + [Digit(n % 10)]
  }

  lemma {:induction false} ValuePrefix(a: string, b: string, n: nat)
    requires n <= |a|
    ensures ValueTo(a + b, n) == ValueTo(a, n)
  {
    if n != 0 {
      ValuePrefix(a, b, n - 1);
    }
  }

  lemma {:induction false} DecimalValue(n: nat)
    ensures AllIn(Decimal(n), Digits) && Value(Decimal(n)) == n
  {
    if 10 <= n {
      DecimalValue(n / 10);
      var a := Decimal(n / 10);
      ValuePrefix(a, [Digit(n % 10)], |a|);
    } else {
      assert ValueTo([Digit(n)], 0) == 0;
    }
  }

  /** Blanks are dropped before a rule is parsed. */
  function Strip(s: string): string {
    if s == "" then "" else if s[0] == ' ' then Strip(s[1..]) else [s[0]] + Strip(s[1..])
  }

  lemma {:induction false} StripAppend(a: string, b: string)
    ensures Strip(a + b) == Strip(a) + Strip(b)
  {
    if a == "" {
      assert a + b == b;
      assert Strip(a) + Strip(b) == Strip(b);
    } else {
      assert (a + b)[1..] == a[1..] + b;
      StripAppend(a[1..], b);
    }
  }

  lemma {:induction false} StripNothing(a: string)
    requires forall i :: 0 <= i < |a| ==> a[i] != ' '
    ensures Strip(a) == a
  {
    if a != "" {
      StripNothing(a[1..]);
      assert a == [a[0]] + a[1..];
    }
  }

  /** The terms the parser makes. */
  ghost predicate WellFormed(t: Term) {
    match t
    case Const(_, num) => IsNumeral(num)
    case Symbol(k) => k < FIRST_PROC
    case Proc(k, name, _) => FIRST_PROC <= k < SYMBOLS && AllIn(name, Letters) && (k == TIME ==> name == "")
    case Neg(t1) => WellFormed(t1)
    case Not(t1) => WellFormed(t1)
    case Binary(_, l, r) => WellFormed(l) && WellFormed(r)
  }

  lemma {:induction false} MeaningWellFormed(vars: map<string, string>, e: Expr, prio: nat)
    requires Fits(vars, e, prio)
    ensures WellFormed(Meaning(e))
  {
    match e
    case Var(_, def) => MeaningWellFormed(vars, def, PRIO_NONE);
    case Paren(e1) => MeaningWellFormed(vars, e1, PRIO_NONE);
    case Minused(e1) => MeaningWellFormed(vars, e1, prio);
    case Negated(e1) => MeaningWellFormed(vars, e1, prio);
    case Bin(op, l, r) =>
      MeaningWellFormed(vars, l, prio);
      MeaningWellFormed(vars, r, Prio(op));
    case _ =>
  }

  /** The expression that print_term writes. */
  function Written(t: Term): Expr {
    match t
    case Const(neg, num) => Num(neg, num)
    case Symbol(k) => Name(k)
    case Proc(k, name, index) => ProcName(k, name, Decimal(index))
    case Neg(t1) => Minused(Paren(Written(t1)))
    case Not(t1) => Negated(Paren(Written(t1)))
    case Binary(op, l, r) => Bin(op, Paren(Written(l)), Paren(Written(r)))
  }

  lemma {:induction false} WrittenFits(t: Term)
    requires WellFormed(t)
    ensures Fits(map[], Written(t), PRIO_NONE) && Meaning(Written(t)) == t && Depth(Written(t)) == 0
  {
    match t
    case Proc(_, _, index) => DecimalValue(index);
    case Neg(t1) => WrittenFits(t1);
    case Not(t1) => WrittenFits(t1);
    case Binary(op, l, r) =>
      WrittenFits(l);
      WrittenFits(r);
    case _ =>
  }

  lemma {:induction false} NumeralStrip(num: string)
    requires IsNumeral(num)
    ensures Strip(num) == num && Strip("-" + num) == "-" + num
  {
    NumRunSound(num, false);
    assert forall i :: 0 <= i < |num| ==> num[i] != ' ';
    StripNothing(num);
    StripNothing("-" + num);
  }

  lemma {:induction false} SymbolStrip(k: nat)
    requires k < SYMBOLS
    ensures Strip(SymName(k)) == SymName(k)
  {
    WordIs(k);
    assert forall i :: 0 <= i < |SymName(k)| ==> SymName(k)[i] == '.' || In(SymName(k)[i], Words);
    StripNothing(SymName(k));
  }

  lemma {:induction false} ProcStrip(k: nat, name: string, index: nat)
    requires k < SYMBOLS && AllIn(name, Letters)
    ensures Strip(Print(Proc(k, name, index))) == Text(ProcName(k, name, Decimal(index)))
  {
    var tail := name + ("[" + (Decimal(index) + "]"));
    DecimalValue(index);
    SymbolStrip(k);
    StripNothing(tail);
    StripAppend(SymName(k), tail);
  }

  /** Signs and blanks around a printed operand. */
  lemma {:induction false} StripAround(open: string, a: string, close: string)
    ensures Strip(open + (a + close)) == Strip(open) + (Strip(a) + Strip(close))
  {
    StripAppend(open, a + close);
    StripAppend(a, close);
  }

  lemma {:induction false} StripPrint(t: Term)
    requires WellFormed(t)
    ensures Strip(Print(t)) == Text(Written(t))
  {
    match t
    case Const(neg, num) => NumeralStrip(num);
    case Symbol(k) => SymbolStrip(k);
    case Proc(k, name, index) => ProcStrip(k, name, index);
    case Neg(t1) =>
      StripPrint(t1);
      SignStrip("-(", Print(t1));
    case Not(t1) =>
      StripPrint(t1);
      SignStrip("!(", Print(t1));
    case Binary(op, l, r) =>
      StripPrint(l);
      StripPrint(r);
      BinaryStrip(Print(l), OpChar(op), Print(r));
  }

  lemma {:induction false} SignStrip(sign: string, a: string)
    requires |sign| == 2 && sign[0] != ' ' && sign[1] == '('
    ensures Strip(sign + (a + ")")) == [sign[0]] + ("(" + (Strip(a) + ")"))
  {
    StripAround(sign, a, ")");
    StripNothing(sign);
    StripNothing(")");
    assert sign == [sign[0]] + "(";
  }

  lemma {:induction false} BinaryStrip(a: string, c: char, b: string)
    requires c != ' '
    ensures Strip("(" + (a + (") " + ([c] + (" (" + (b + ")")))))) == ("(" + (Strip(a) + ")"))
            + ([c] + ("(" + (Strip(b) + ")")))
  {
    var mid := ") " + ([c] + " (");
    assert "(" + (a + (") " + ([c] + (" (" + (b + ")"))))) == "(" + (a + (mid + (b + ")")));
    StripNothing("(");
    StripNothing(")");
    StripAround("(", a, mid + (b + ")"));
    StripAround(mid, b, ")");
    MidStrip(c);
    assert Strip(mid) == ")" + ([c] + "(");
  }

  lemma {:induction false} MidStrip(c: char)
    requires c != ' '
    ensures Strip(") " + ([c] + " (")) == ")" + ([c] + "(")
  {
    StripAppend(") ", [c] + " (");
    StripAppend(")", " ");
    StripAppend([c], " (");
    StripAppend(" ", "(");
    StripNothing(")");
    StripNothing("(");
    StripNothing([c]);
    assert ") " == ")" + " " && " (" == " " + "(";
    assert Strip(" ") == "" by {
      assert " "[1..] == "";
    }
  }

  /** Printing and parsing undo each other: what print_term writes for a term, blanks dropped, is parsed as that
      term. */
  lemma {:induction false} PrintRoundTrip(t: Term, depth: nat)
    requires WellFormed(t)
    ensures Parse(map[], depth, Strip(Print(t)), PRIO_NONE) == Done(t, "")
  {
    StripPrint(t);
    WrittenFits(t);
    Accepted(map[], depth, Written(t));
  }

  /** Every rule that is accepted: its term, printed and parsed again without any variable, is the same term. */
  lemma {:induction false} AcceptedRoundTrip(vars: map<string, string>, depth: nat, s: string, t: Term, depth': nat)
    requires VarsOk(vars) && Parse(vars, depth, s, PRIO_NONE) == Done(t, "")
    ensures Parse(map[], depth', Strip(Print(t)), PRIO_NONE) == Done(t, "")
  {
    var e := Sound(vars, depth, s, PRIO_NONE);
    MeaningWellFormed(vars, e, PRIO_NONE);
    PrintRoundTrip(t, depth');
  }

  // ----- parse_term --------------------------------------------------------------------------------------------------

  /** The highest history index in a term. */
  function MaxIndex(t: Term): nat {
    match t
    case Proc(_, _, index) => index
    case Neg(t1) => MaxIndex(t1)
    case Not(t1) => MaxIndex(t1)
    case Binary(_, l, r) => Max(MaxIndex(l), MaxIndex(r))
    case _ => 0
  }

  /** history_max grows to the index just parsed. */
  method NoteIndex(history_max: nat, r: Result) returns (h: nat)
    requires r.Done? && (r.t.Symbol? || r.t.Proc?)
    ensures h == Max(history_max, MaxIndex(r.t))
  {
    h := history_max;
    if r.t.Proc? && h < r.t.index {
      h := r.t.index;
    }
  }

  lemma {:induction false} SymbolIsLeaf(s: string)
    ensures ParseSymbol(s).Done? ==> ParseSymbol(s).t.Symbol? || ParseSymbol(s).t.Proc?
  {
  }

  /** The first operand: sign, numeral, parenthesis, variable or symbol. */
  method ParseOperand(vars: map<string, string>, depth: nat, s: string, prio: nat, history_max: nat)
    returns (r: Result, h: nat)
    ensures r == Operand(vars, depth, s, prio)
    ensures r.Done? ==> h == Max(history_max, MaxIndex(r.t))
    decreases depth, |s|, 0
  {
    h := history_max;
    if Head(s) == '-' {
      if In(Head(s[1..]), Digits) {
        var n := NumLen(s[1..]);
        return Done(Const(true, s[1..][..n]), Drop(s[1..], n)), h;
      }
      r, h := ParseTerm(vars, depth, s[1..], prio, h);
      r := if r.Done? then Done(Neg(r.t), r.rest) else r;
    } else if Head(s) == '!' {
      r, h := ParseTerm(vars, depth, s[1..], prio, h);
      r := if r.Done? then Done(Not(r.t), r.rest) else r;
    } else if In(Head(s), Digits) {
      var n := NumLen(s);
      return Done(Const(false, s[..n]), Drop(s, n)), h;
    } else if Head(s) == '(' {
      r, h := ParseTerm(vars, depth, s[1..], PRIO_NONE, h);
      r := if r.Done? then if Head(r.rest) == ')' then Done(r.t, r.rest[1..]) else Fail else r;
    } else {
      var n := Run(s, Words);
      if MAX_VARNAME < n {
        return Fail, h;
      }
      if n != 0 && s[..n] in vars {
        if depth == 0 {
          return Deep, h;
        }
        r, h := ParseTerm(vars, depth - 1, vars[s[..n]], PRIO_NONE, h);
        r := if r.Done? then if r.rest == "" then Done(r.t, Drop(s, n)) else Fail else r;
      } else {
        r := ParseSymbol(s);
        SymbolIsLeaf(s);
        if r.Done? {
          h := NoteIndex(h, r);
        }
      }
    }
  }

  /** parse_term: the first operand, then operators as long as they bind tighter than prio; history_max follows every
      index seen. */
  method ParseTerm(vars: map<string, string>, depth: nat, s: string, prio: nat, history_max: nat)
    returns (r: Result, h: nat)
    ensures r == Parse(vars, depth, s, prio)
    ensures r.Done? ==> h == Max(history_max, MaxIndex(r.t))
    decreases depth, |s|, 1
  {
    r, h := ParseOperand(vars, depth, s, prio, history_max);
    if !r.Done? {
      return;
    }
    while true
      invariant r.Done? && |r.rest| < |s| && h == Max(history_max, MaxIndex(r.t))
      invariant Parse(vars, depth, s, prio) == Chain(vars, depth, r.rest, prio, r.t)
      decreases |r.rest|
    {
      var op := OpOf(Head(r.rest));
      if op.None? || prio >= Prio(op.value) {
        return;
      }
      var right;
      right, h := ParseTerm(vars, depth, r.rest[1..], Prio(op.value), h);
      if !right.Done? {
        return right, h;
      }
      r := Done(Binary(op.value, r.t, right.t), right.rest);
    }
  }
}
