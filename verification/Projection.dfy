/**
 The projection rewriter: splitting a column list at top-level commas and
 qualifying every column with a table alias. SplitJoin characterises the
 splitter without its scan state, PrefixColumnsCommutes says that re-parsing the
 rewritten projection gives exactly the rewritten columns.
 */
module Projection {
  import opened Runes

  const COMMA: int := ',' as int
  const BACKSLASH: int := '\\' as int
  const APOSTROPHE: int := '\'' as int
  const OPEN: int := '(' as int
  const CLOSE: int := ')' as int
  const DOT: int := '.' as int
  const SPACE: int := ' ' as int

  // ---------- The scan state ----------

  datatype Scan = Scan(depth: int, quoted: bool)

  const START := Scan(0, false)

  /** The state after one more character; escaped says that a backslash precedes it. */
  function After(s: Scan, escaped: bool, c: int): Scan {
    if c == APOSTROPHE && !escaped then s.(quoted := !s.quoted)
    else if c == OPEN && !s.quoted then s.(depth := s.depth + 1)
    else if c == CLOSE && !s.quoted then s.(depth := s.depth - 1)
    else s
  }

  predicate Cuts(s: Scan, c: int) {
    c == COMMA && s == START
  }

  function Run(s: Scan, escaped: bool, t: Text): Scan
    decreases |t|
  {
    if t == [] then s else Run(After(s, escaped, t[0]), t[0] == BACKSLASH, t[1..])
  }

  /** The position of the first top-level comma, or the length of t. */
  function FirstCut(s: Scan, escaped: bool, t: Text): (n: nat)
    ensures n <= |t|
    decreases |t|
  {
    if t == [] || Cuts(s, t[0]) then 0 else 1 + FirstCut(After(s, escaped, t[0]), t[0] == BACKSLASH, t[1..])
  }

  /** No comma of t is at top level. */
  predicate Whole(t: Text) {
    FirstCut(START, false, t) == |t|
  }

  /** t ends outside parentheses and quotes. */
  predicate Balanced(t: Text) {
    Run(START, false, t) == START
  }

  function Parts(t: Text): seq<Text>
    decreases |t|
  {
    if t == [] then []
    else
      var n := FirstCut(START, false, t);
      if n == |t| then [t] else [t[..n]] + Parts(t[n + 1..])
  }

  function Join(sep: Text, parts: seq<Text>): Text {
    if parts == [] then []
    else if |parts| == 1 then parts[0]
    else parts[0] + (sep + Join(sep, parts[1..]))
  }

  /** What the parts of a text are like: only the last may be left open, and it is not empty. */
  predicate WellSplit(parts: seq<Text>) {
    && (forall i :: 0 <= i < |parts| ==> Whole(parts[i]))
    && (forall i :: 0 <= i < |parts| - 1 ==> Balanced(parts[i]))
    && (parts != [] ==> parts[|parts| - 1] != [])
  }

  // ---------- Scanning concatenations ----------

  /** Whether a backslash precedes what follows t. */
  predicate EscapedAfter(escaped: bool, t: Text) {
    if t == [] then escaped else t[|t| - 1] == BACKSLASH
  }

  lemma {:induction false} RunConcat(s: Scan, escaped: bool, a: Text, b: Text)
    ensures Run(s, escaped, a + b) == Run(Run(s, escaped, a), EscapedAfter(escaped, a), b)
    decreases |a|
  {
    if a == [] {
      assert a + b == b;
    } else {
      assert (a + b)[1..] == a[1..] + b;
      RunConcat(After(s, escaped, a[0]), a[0] == BACKSLASH, a[1..], b);
    }
  }

  lemma {:induction false} CutConcat(s: Scan, escaped: bool, a: Text, b: Text)
    requires FirstCut(s, escaped, a) == |a|
    ensures FirstCut(s, escaped, a + b) == |a| + FirstCut(Run(s, escaped, a), EscapedAfter(escaped, a), b)
    decreases |a|
  {
    if a == [] {
      assert a + b == b;
    } else {
      assert (a + b)[1..] == a[1..] + b;
      CutConcat(After(s, escaped, a[0]), a[0] == BACKSLASH, a[1..], b);
    }
  }

  /** Scanning a prefix up to the first cut meets no cut, and stops at top level if there is one. */
  lemma {:induction false} CutPrefix(s: Scan, escaped: bool, t: Text)
    ensures var n := FirstCut(s, escaped, t);
            && FirstCut(s, escaped, t[..n]) == n
            && (n < |t| ==> t[n] == COMMA && Run(s, escaped, t[..n]) == START)
    decreases |t|
  {
    if t != [] && !Cuts(s, t[0]) {
      var n := FirstCut(s, escaped, t);
      CutPrefix(After(s, escaped, t[0]), t[0] == BACKSLASH, t[1..]);
      assert t[..n][1..] == t[1..][..n - 1];
    }
  }

  /** Text that the scanner passes over without changing state. */
  predicate Inert(t: Text) {
    forall i :: 0 <= i < |t| ==> t[i] !in [APOSTROPHE, OPEN, CLOSE, COMMA, BACKSLASH]
  }

  lemma {:induction false} ScanInert(s: Scan, escaped: bool, t: Text)
    requires Inert(t)
    ensures Run(s, escaped, t) == s && FirstCut(s, escaped, t) == |t|
  {
    if t != [] {
      ScanInert(s, false, t[1..]);
    }
  }

  /** Inert text put where no backslash precedes is not noticed. */
  lemma InsertInert(head: Text, inert: Text, rest: Text)
    requires Inert(inert) && !EscapedAfter(false, head)
    requires FirstCut(START, false, head + rest) == |head| + |rest|
    requires FirstCut(START, false, head) == |head|
    ensures FirstCut(START, false, head + (inert + rest)) == |head| + (|inert| + |rest|)
    ensures Run(START, false, head + (inert + rest)) == Run(START, false, head + rest)
  {
    var s := Run(START, false, head);
    CutConcat(START, false, head, rest);
    RunConcat(START, false, head, rest);
    CutConcat(START, false, head, inert + rest);
    RunConcat(START, false, head, inert + rest);
    ScanInert(s, false, inert);
    CutConcat(s, false, inert, rest);
    RunConcat(s, false, inert, rest);
  }

  lemma {:induction false} WholePrefix(s: Scan, escaped: bool, a: Text, b: Text)
    requires FirstCut(s, escaped, a + b) == |a| + |b|
    ensures FirstCut(s, escaped, a) == |a|
    decreases |a|
  {
    if a != [] {
      assert (a + b)[1..] == a[1..] + b;
      WholePrefix(After(s, escaped, a[0]), a[0] == BACKSLASH, a[1..], b);
    }
  }

  // ---------- The splitter ----------

  /** The parts still to come, when current is the beginning of the next one. */
  ghost function Pending(current: Text, s: Scan, escaped: bool, t: Text): seq<Text> {
    var n := FirstCut(s, escaped, t);
    if n < |t| then [current + t[..n]] + Parts(t[n + 1..])
    else if current + t == [] then []
    else [current + t]
  }

  /** The parts found so far and those pending are the parts of the input. */
  ghost predicate Splitting(input: Text, i: nat, parts: seq<Text>, current: Text, s: Scan)
    requires i <= |input|
  {
    parts + Pending(current, s, EscapedAfter(false, input[..i]), input[i..]) == Parts(input)
  }

  lemma SplittingStep(input: Text, i: nat, parts: seq<Text>, current: Text, s: Scan)
    requires i < |input| && Splitting(input, i, parts, current, s)
    ensures EscapedAfter(false, input[..i]) == (i > 0 && input[i - 1] == BACKSLASH)
    ensures if Cuts(s, input[i]) then Splitting(input, i + 1, parts + [current], [], START)
            else Splitting(input, i + 1, parts, current + [input[i]],
                           After(s, EscapedAfter(false, input[..i]), input[i]))
  {
    var escaped, c, rest := EscapedAfter(false, input[..i]), input[i], input[i + 1..];
    StepInput(input, i);
    PendingStep(current, s, escaped, input[i..]);
    if Cuts(s, c) {
      Regroup(parts, current, Pending([], START, false, rest));
      assert Splitting(input, i + 1, parts + [current], [], START);
    } else {
      assert Splitting(input, i + 1, parts, current + [c], After(s, escaped, c));
    }
  }

  lemma StepInput(input: Text, i: nat)
    requires i < |input|
    ensures input[i..] != [] && input[i..][0] == input[i] && input[i..][1..] == input[i + 1..]
    ensures EscapedAfter(false, input[..i]) == (i > 0 && input[i - 1] == BACKSLASH)
    ensures EscapedAfter(false, input[..i + 1]) == (input[i] == BACKSLASH)
  {
    assert input[..i + 1][i] == input[i];
  }

  method SplitTopLevel(input: Text) returns (parts: seq<Text>)
    ensures parts == Parts(input)
  {
    parts := [];
    var current: Text, depth, inQuote := [], 0, false;
    PendingStart(input);
    for i := 0 to |input|
      invariant Splitting(input, i, parts, current, Scan(depth, inQuote))
    {
      var c := input[i];
      SplittingStep(input, i, parts, current, Scan(depth, inQuote));
      if c == APOSTROPHE && (i == 0 || input[i - 1] != BACKSLASH) {
        inQuote := !inQuote;
      } else if c == OPEN && !inQuote {
        depth := depth + 1;
      } else if c == CLOSE && !inQuote {
        depth := depth - 1;
      } else if c == COMMA && depth == 0 && !inQuote {
        parts := parts + [current];
        current := [];
        continue;
      }
      current := current + [c];
    }
    assert current + [] == current;
    if current != [] {
      parts := parts + [current];
    }
  }

  lemma PendingStart(input: Text)
    ensures [] + Pending([], START, false, input[0..]) == Parts(input)
    ensures !EscapedAfter(false, input[..0])
  {
    assert input[0..] == input && [] + input == input;
    var n := FirstCut(START, false, input);
    assert [] + input[..n] == input[..n];
  }

  lemma Regroup(parts: seq<Text>, part: Text, more: seq<Text>)
    ensures parts + ([part] + more) == (parts + [part]) + more
  {
  }

  lemma PendingStep(current: Text, s: Scan, escaped: bool, t: Text)
    requires t != []
    ensures Pending(current, s, escaped, t)
         == if Cuts(s, t[0]) then [current] + Pending([], START, false, t[1..])
            else Pending(current + [t[0]], After(s, escaped, t[0]), t[0] == BACKSLASH, t[1..])
  {
    if Cuts(s, t[0]) {
      PendingCut(current, s, escaped, t);
    } else {
      PendingShift(current, t, FirstCut(s, escaped, t));
    }
  }

  lemma PendingCut(current: Text, s: Scan, escaped: bool, t: Text)
    requires t != [] && Cuts(s, t[0])
    ensures Pending(current, s, escaped, t) == [current] + Pending([], START, false, t[1..])
  {
    assert current + t[..0] == current;
    assert t[1..][0..] == t[1..];
    PendingStart(t[1..]);
  }

  lemma PendingShift(current: Text, t: Text, n: nat)
    requires 0 < n <= |t|
    ensures current + t[..n] == current + [t[0]] + t[1..][..n - 1]
    ensures current + t == current + [t[0]] + t[1..]
    ensures n < |t| ==> t[n + 1..] == t[1..][n..]
  {
  }

  /** t ends with a comma at top level, which the splitter drops. */
  predicate TrailingComma(t: Text) {
    t != [] && t[|t| - 1] == COMMA && Run(START, false, t[..|t| - 1]) == START
  }

  /** Joining the parts gives back the input, but for one trailing top-level comma. */
  lemma {:induction false} SplitLosesNothing(t: Text)
    ensures Join([COMMA], Parts(t)) == if TrailingComma(t) then t[..|t| - 1] else t
    decreases |t|
  {
    var n := FirstCut(START, false, t);
    CutPrefix(START, false, t);
    if n < |t| {
      SplitLosesNothing(t[n + 1..]);
      JoinStep(t, n);
    } else {
      NoTrailing(t);
    }
  }

  /** Every part stands alone: no comma at top level, and only the last may be left open. */
  lemma {:induction false} PartsStandAlone(t: Text)
    ensures forall i :: 0 <= i < |Parts(t)| ==> Whole(Parts(t)[i])
    ensures forall i :: 0 <= i < |Parts(t)| - 1 ==> Balanced(Parts(t)[i])
    ensures Parts(t) != [] ==>
              var last := Parts(t)[|Parts(t)| - 1];
              if TrailingComma(t) then Balanced(last) else last != []
    decreases |t|
  {
    var n := FirstCut(START, false, t);
    CutPrefix(START, false, t);
    if n < |t| {
      PartsStandAlone(t[n + 1..]);
      TrailingStep(t, n);
    } else {
      NoTrailing(t);
    }
  }

  lemma JoinStep(t: Text, n: nat)
    requires n < |t| && t[n] == COMMA && Run(START, false, t[..n]) == START
    requires var rest := t[n + 1..];
             Join([COMMA], Parts(rest)) == if TrailingComma(rest) then rest[..|rest| - 1] else rest
    ensures Join([COMMA], [t[..n]] + Parts(t[n + 1..])) == if TrailingComma(t) then t[..|t| - 1] else t
  {
    var rest := t[n + 1..];
    TrailingStep(t, n);
    if rest == [] {
      assert t[..|t| - 1] == t[..n];
    } else {
      JoinCons([COMMA], t[..n], Parts(rest));
      DropLast(t, n);
    }
  }

  lemma JoinCons(sep: Text, part: Text, parts: seq<Text>)
    requires parts != []
    ensures Join(sep, [part] + parts) == part + (sep + Join(sep, parts))
  {
    assert ([part] + parts)[1..] == parts;
  }

  lemma DropLast(t: Text, n: nat)
    requires n + 1 < |t| && t[n] == COMMA
    ensures t == t[..n] + ([COMMA] + t[n + 1..])
    ensures t[..|t| - 1] == t[..n] + ([COMMA] + t[n + 1..][..|t| - n - 2])
  {
  }

  lemma TrailingStep(t: Text, n: nat)
    requires n < |t| && t[n] == COMMA && Run(START, false, t[..n]) == START
    ensures TrailingComma(t) <==> t[n + 1..] == [] || TrailingComma(t[n + 1..])
  {
    var rest := t[n + 1..];
    if rest == [] {
      assert t[..|t| - 1] == t[..n];
    } else {
      var r := rest[..|rest| - 1];
      DropLast(t, n);
      assert r == t[n + 1..][..|t| - n - 2];
      RunConcat(START, false, t[..n], [COMMA] + r);
      assert ([COMMA] + r)[1..] == r;
    }
  }

  lemma NoTrailing(t: Text)
    requires Whole(t)
    ensures !TrailingComma(t)
  {
    if t != [] {
      var r := t[..|t| - 1];
      assert t == r + t[|t| - 1..];
      WholePrefix(START, false, r, t[|t| - 1..]);
      CutConcat(START, false, r, t[|t| - 1..]);
    }
  }

  lemma FirstPart(part: Text, rest: Text)
    requires Whole(part) && Balanced(part)
    ensures Parts(part + ([COMMA] + rest)) == [part] + Parts(rest)
  {
    CutConcat(START, false, part, [COMMA] + rest);
    CutApart(part, rest);
  }

  /** The splitter is the only inverse of joining: it finds the parts of every well-split list. */
  lemma {:induction false} SplitJoin(parts: seq<Text>)
    requires WellSplit(parts)
    ensures Parts(Join([COMMA], parts)) == parts
  {
    if |parts| == 1 {
      assert Whole(parts[0]);
      assert Parts(parts[0]) == [parts[0]];
    } else if |parts| > 1 {
      var more := parts[1..];
      assert WellSplit(more) by { assert forall i :: 0 <= i < |more| ==> more[i] == parts[i + 1]; }
      SplitJoin(more);
      assert Whole(parts[0]) && Balanced(parts[0]);
      FirstPart(parts[0], Join([COMMA], more));
      assert parts == [parts[0]] + more;
    }
  }

  lemma CutApart(part: Text, rest: Text)
    ensures (part + ([COMMA] + rest))[..|part|] == part
    ensures (part + ([COMMA] + rest))[|part| + 1..] == rest
  {
  }

  // ---------- The rewrite ----------

  function IndexOf(t: Text, c: int): (n: nat)
    ensures n <= |t|
    ensures n < |t| ==> t[n] == c
    ensures forall i :: 0 <= i < n ==> t[i] != c
  {
    if t == [] || t[0] == c then 0 else 1 + IndexOf(t[1..], c)
  }

  function Qualify(expression: Text, alias: Text): Text {
    var open := IndexOf(expression, OPEN);
    if open == |expression| then alias + [DOT] + expression
    else expression[..open + 1] + (alias + [DOT] + expression[open + 1..])
  }

  /** The columns of the rewritten projection: every non-blank part, trimmed and qualified. */
  function QualifiedColumns(parts: seq<Text>, alias: Text): seq<Text> {
    if parts == [] then []
    else if TrimSpace(parts[0]) == [] then QualifiedColumns(parts[1..], alias)
    else [Qualify(TrimSpace(parts[0]), alias)] + QualifiedColumns(parts[1..], alias)
  }

  const SEPARATOR: Text := [COMMA, SPACE]

  method PrefixColumns(columns: Text, alias: Text) returns (r: Text)
    ensures r == Join(SEPARATOR, QualifiedColumns(Parts(columns), alias))
  {
    var parts := SplitTopLevel(columns);
    var out: seq<Text> := [];
    assert parts[0..] == parts;
    for i := 0 to |parts|
      invariant out + QualifiedColumns(parts[i..], alias) == QualifiedColumns(parts, alias)
    {
      assert parts[i..][1..] == parts[i + 1..];
      var trimmed := TrimSpace(parts[i]);
      if trimmed == [] {
        continue;
      }
      Regroup(out, Qualify(trimmed, alias), QualifiedColumns(parts[i + 1..], alias));
      out := out + [Qualify(trimmed, alias)];
    }
    assert out + [] == out;
    return Join(SEPARATOR, out);
  }

  function TrimAll(parts: seq<Text>): seq<Text> {
    seq(|parts|, i requires 0 <= i < |parts| => TrimSpace(parts[i]))
  }

  /** An alias without quotes, parentheses, commas, backslashes or spaces. */
  predicate Plain(alias: Text) {
    Inert(alias) && forall i :: 0 <= i < |alias| ==> !IsSpace(alias[i])
  }

  lemma SpaceInert(t: Text)
    requires AllSpace(t)
    ensures Inert(t) && (t != [] ==> !EscapedAfter(false, t))
  {
  }

  /** Trimming a part does not change how it scans. */
  lemma TrimScans(part: Text)
    requires Whole(part)
    ensures Whole(TrimSpace(part)) && Run(START, false, TrimSpace(part)) == Run(START, false, part)
  {
    var before, after := TrimSpaceSplits(part);
    CoreScans(before, TrimSpace(part), after);
  }

  lemma CoreScans(before: Text, core: Text, after: Text)
    requires AllSpace(before) && AllSpace(after) && Whole(before + core + after)
    ensures Whole(core) && Run(START, false, core) == Run(START, false, before + core + after)
  {
    SpaceInert(before);
    SpaceInert(after);
    assert before + core + after == before + (core + after);
    ScanInert(START, false, before);
    CutConcat(START, false, before, core + after);
    RunConcat(START, false, before, core + after);
    WholePrefix(START, false, core, after);
    RunConcat(START, false, core, after);
    ScanInert(Run(START, false, core), EscapedAfter(false, core), after);
  }

  lemma QualifyScans(e: Text, alias: Text)
    requires Whole(e) && Plain(alias)
    ensures Whole(Qualify(e, alias))
    ensures Run(START, false, Qualify(e, alias)) == Run(START, false, e)
  {
    var inert := alias + [DOT];
    var open := IndexOf(e, OPEN);
    var n := if open == |e| then 0 else open + 1;
    var head, rest := e[..n], e[n..];
    assert e == head + rest;
    WholePrefix(START, false, head, rest);
    InsertInert(head, inert, rest);
    assert Qualify(e, alias) == head + (inert + rest);
  }

  lemma QualifyTight(e: Text, alias: Text)
    requires e != [] && Tight(e) && Plain(alias)
    ensures Tight(Qualify(e, alias)) && Qualify(e, alias) != []
  {
    var open := IndexOf(e, OPEN);
    var q := Qualify(e, alias);
    if open == |e| {
      assert q[|q| - 1] == e[|e| - 1];
      assert q[0] == if alias == [] then DOT else alias[0];
    } else {
      assert q[0] == e[0];
      assert q[|q| - 1] == if open + 1 == |e| then DOT else e[|e| - 1];
    }
  }

  /** The qualified columns, each but the first behind one space. */
  function Spaced(columns: seq<Text>): seq<Text> {
    seq(|columns|, i requires 0 <= i < |columns| => if i == 0 then columns[0] else [SPACE] + columns[i])
  }

  lemma {:induction false} JoinSpaced(columns: seq<Text>)
    ensures Join(SEPARATOR, columns) == Join([COMMA], Spaced(columns))
    ensures |columns| > 0 ==>
              [SPACE] + Join(SEPARATOR, columns)
              == Join([COMMA], seq(|columns|, i requires 0 <= i < |columns| => [SPACE] + columns[i]))
  {
    if |columns| > 1 {
      var rest := columns[1..];
      JoinSpaced(rest);
      var spaced := seq(|rest|, i requires 0 <= i < |rest| => [SPACE] + rest[i]);
      assert Spaced(columns)[1..] == spaced;
      var all := seq(|columns|, i requires 0 <= i < |columns| => [SPACE] + columns[i]);
      assert all[1..] == spaced;
      var j := Join(SEPARATOR, rest);
      assert SEPARATOR + j == [COMMA] + ([SPACE] + j);
      assert [SPACE] + (columns[0] + (SEPARATOR + j)) == ([SPACE] + columns[0]) + (SEPARATOR + j);
    }
  }

  /** Columns that a splitter would find again behind their separators. */
  predicate Columns(q: seq<Text>) {
    && (forall i :: 0 <= i < |q| ==> Whole(q[i]) && Tight(q[i]) && q[i] != [])
    && (forall i :: 0 <= i < |q| - 1 ==> Balanced(q[i]))
  }

  /** Every qualified column scans like the part it comes from. */
  lemma {:induction false} ColumnsSplit(parts: seq<Text>, alias: Text)
    requires Plain(alias)
    requires forall i :: 0 <= i < |parts| ==> Whole(parts[i])
    requires forall i :: 0 <= i < |parts| - 1 ==> Balanced(parts[i])
    ensures Columns(QualifiedColumns(parts, alias))
  {
    if parts != [] {
      var more := QualifiedColumns(parts[1..], alias);
      ColumnsSplit(parts[1..], alias);
      if TrimSpace(parts[0]) != [] {
        ColumnScans(parts[0], alias);
        assert more != [] ==> |parts| > 1;
        ColumnsCons(Qualify(TrimSpace(parts[0]), alias), more);
      }
    }
  }

  lemma ColumnScans(part: Text, alias: Text)
    requires Whole(part) && Plain(alias) && TrimSpace(part) != []
    ensures var q := Qualify(TrimSpace(part), alias);
            && Whole(q) && Tight(q) && q != []
            && Run(START, false, q) == Run(START, false, part)
  {
    TrimScans(part);
    var before, after := TrimSpaceSplits(part);
    QualifyScans(TrimSpace(part), alias);
    QualifyTight(TrimSpace(part), alias);
  }

  lemma ColumnsCons(column: Text, more: seq<Text>)
    requires Columns(more) && Whole(column) && Tight(column) && column != []
    requires more != [] ==> Balanced(column)
    ensures Columns([column] + more)
  {
  }

  lemma SpacedSplit(q: seq<Text>)
    requires Columns(q)
    ensures WellSplit(Spaced(q)) && TrimAll(Spaced(q)) == q
  {
    forall i | 0 <= i < |q|
      ensures Whole(Spaced(q)[i]) && (i < |q| - 1 ==> Balanced(Spaced(q)[i]))
      ensures Spaced(q)[i] != [] && TrimSpace(Spaced(q)[i]) == q[i]
    {
      var space: Text := if i == 0 then [] else [SPACE];
      assert Spaced(q)[i] == space + q[i];
      ScanInert(START, false, space);
      CutConcat(START, false, space, q[i]);
      RunConcat(START, false, space, q[i]);
      TrimSpaceCore(space, q[i], []);
      assert space + q[i] + [] == space + q[i];
    }
  }

  /** Re-parsing the rewritten projection gives exactly the qualified columns, in order. */
  lemma PrefixColumnsCommutes(columns: Text, alias: Text)
    requires Plain(alias)
    ensures var q := QualifiedColumns(Parts(columns), alias);
            TrimAll(Parts(Join(SEPARATOR, q))) == q
  {
    var q := QualifiedColumns(Parts(columns), alias);
    PartsStandAlone(columns);
    ColumnsSplit(Parts(columns), alias);
    SpacedSplit(q);
    JoinSpaced(q);
    SplitJoin(Spaced(q));
  }
}
