/**
 Where the projection splitter cuts, by counting over the input: apostrophes without
 a backslash before them, and parentheses outside quotes. CutsAreCounted says that
 the splitter cuts exactly at the commas with an even number of the former and
 equally many opening and closing ones of the latter before them.
 */
module ProjectionCounts {
  import opened Runes
  import opened Projection

  /** The apostrophes of t that begin or end a quotation. */
  function QuoteMarks(t: Text): nat {
    if t == [] then 0
    else
      var n := |t| - 1;
      QuoteMarks(t[..n]) + if t[n] == APOSTROPHE && (n == 0 || t[n - 1] != BACKSLASH) then 1 else 0
  }

  /** The occurrences of c outside quotations. */
  function Outside(t: Text, c: int): nat {
    if t == [] then 0
    else
      var n := |t| - 1;
      Outside(t[..n], c) + if t[n] == c && QuoteMarks(t[..n]) % 2 == 0 then 1 else 0
  }

  predicate TopLevelComma(t: Text, i: nat)
    requires i < |t|
  {
    && t[i] == COMMA && QuoteMarks(t[..i]) % 2 == 0
    && Outside(t[..i], OPEN) == Outside(t[..i], CLOSE)
  }

  /** t cut at every top-level comma. */
  function Pieces(t: Text): (ps: seq<Text>)
    ensures ps != []
  {
    if t == [] then [[]]
    else
      var n := |t| - 1;
      var ps := Pieces(t[..n]);
      if TopLevelComma(t, n) then ps + [[]] else ps[..|ps| - 1] + [ps[|ps| - 1] + [t[n]]]
  }

  /** An empty last piece is dropped. */
  function Kept(ps: seq<Text>): seq<Text>
    requires ps != []
  {
    if ps[|ps| - 1] == [] then ps[..|ps| - 1] else ps
  }

  /** What the scan state counts. */
  predicate Counts(s: Scan, t: Text) {
    s.depth == Outside(t, OPEN) - Outside(t, CLOSE) && (s.quoted <==> QuoteMarks(t) % 2 == 1)
  }

  lemma CountsStep(s: Scan, t: Text, i: nat)
    requires i < |t| && Counts(s, t[..i])
    ensures Cuts(s, t[i]) <==> TopLevelComma(t, i)
    ensures Counts(if Cuts(s, t[i]) then START else After(s, i > 0 && t[i - 1] == BACKSLASH, t[i]), t[..i + 1])
  {
    var more := t[..i + 1];
    assert more[..i] == t[..i] && more[i] == t[i];
    assert i > 0 ==> more[i - 1] == t[i - 1];
  }

  lemma PiecesStep(t: Text, i: nat)
    requires i < |t|
    ensures var ps := Pieces(t[..i]);
      Pieces(t[..i + 1]) == if TopLevelComma(t, i) then ps + [[]] else ps[..|ps| - 1] + [ps[|ps| - 1] + [t[i]]]
  {
    var more := t[..i + 1];
    assert more[..i] == t[..i] && more[i] == t[i];
  }

  /** After i characters the splitter has the pieces of those, and its state counts them. */
  ghost predicate InStep(t: Text, i: nat, parts: seq<Text>, current: Text, s: Scan)
    requires i <= |t|
  {
    Splitting(t, i, parts, current, s) && Counts(s, t[..i]) && Pieces(t[..i]) == parts + [current]
  }

  lemma InStepStep(t: Text, i: nat, parts: seq<Text>, current: Text, s: Scan)
    returns (parts': seq<Text>, current': Text, s': Scan)
    requires i < |t| && InStep(t, i, parts, current, s)
    ensures InStep(t, i + 1, parts', current', s')
  {
    SplittingStep(t, i, parts, current, s);
    CountsStep(s, t, i);
    PiecesStep(t, i);
    var ps := parts + [current];
    if Cuts(s, t[i]) {
      parts', current', s' := ps, [], START;
    } else {
      parts', current', s' := parts, current + [t[i]], After(s, i > 0 && t[i - 1] == BACKSLASH, t[i]);
      assert ps[..|ps| - 1] == parts && ps[|ps| - 1] == current;
    }
  }

  lemma InStepStart(t: Text)
    ensures InStep(t, 0, [], [], START)
  {
    PendingStart(t);
    assert t[..0] == [];
  }

  lemma InStepEnd(t: Text, parts: seq<Text>, current: Text, s: Scan)
    requires InStep(t, |t|, parts, current, s)
    ensures Parts(t) == Kept(Pieces(t))
  {
    assert t[..|t|] == t && t[|t|..] == [];
    assert current + [] == current;
  }

  /** The splitter's parts are the input cut at its top-level commas, an empty last piece dropped. */
  lemma CutsAreCounted(t: Text)
    ensures Parts(t) == Kept(Pieces(t))
  {
    var parts: seq<Text>, current: Text, s := [], [], START;
    InStepStart(t);
    for i := 0 to |t|
      invariant InStep(t, i, parts, current, s)
    {
      parts, current, s := InStepStep(t, i, parts, current, s);
    }
    InStepEnd(t, parts, current, s);
  }

  // ---------- A call is one part ----------

  /** No top-level comma, and not empty: one piece. */
  lemma {:induction false} OnePiece(t: Text)
    requires forall i :: 0 <= i < |t| ==> !TopLevelComma(t, i)
    ensures Pieces(t) == [t]
  {
    if t != [] {
      var n := |t| - 1;
      var r := t[..n];
      forall i | 0 <= i < |r| ensures !TopLevelComma(r, i) {
        assert r[..i] == t[..i] && r[i] == t[i] && !TopLevelComma(t, i);
      }
      OnePiece(r);
      assert t == r + [t[n]];
    }
  }

  /** A name as SQL functions have: none of the characters the splitter looks at. */
  predicate PlainName(t: Text) {
    forall i :: 0 <= i < |t| ==> t[i] !in [COMMA, APOSTROPHE, OPEN, CLOSE, BACKSLASH]
  }

  /** Quotes are closed, and every parenthesis that is closed was opened before and is closed in the end. */
  predicate BalancedText(t: Text) {
    && QuoteMarks(t) % 2 == 0 && Outside(t, OPEN) == Outside(t, CLOSE)
    && forall i :: 0 <= i <= |t| ==> Outside(t[..i], OPEN) >= Outside(t[..i], CLOSE)
  }

  lemma QuoteMarksOneMore(t: Text, c: int)
    ensures QuoteMarks(t + [c])
         == QuoteMarks(t) + if c == APOSTROPHE && (t == [] || t[|t| - 1] != BACKSLASH) then 1 else 0
  {
    assert (t + [c])[..|t|] == t;
  }

  lemma OutsideOneMore(t: Text, c: int, sought: int)
    ensures Outside(t + [c], sought) == Outside(t, sought) + if c == sought && QuoteMarks(t) % 2 == 0 then 1 else 0
  {
    assert (t + [c])[..|t|] == t;
  }

  /** Text behind a plain name and a parenthesis has the quotations it has alone. */
  lemma {:induction false} QuotesBehindName(name: Text, t: Text)
    requires PlainName(name)
    ensures QuoteMarks(name + [OPEN] + t) == QuoteMarks(t)
  {
    var head := name + [OPEN];
    if t == [] {
      NameCountsNothing(name);
      QuoteMarksOneMore(name, OPEN);
      assert head + t == head;
    } else {
      var n := |t| - 1;
      var r := t[..n];
      QuotesBehindName(name, r);
      assert t == r + [t[n]] && head + t == head + r + [t[n]];
      QuoteMarksOneMore(r, t[n]);
      QuoteMarksOneMore(head + r, t[n]);
    }
  }

  /** Behind a plain name and a parenthesis, one more parenthesis is open. */
  lemma {:induction false} OutsideBehindName(name: Text, t: Text, c: int)
    requires PlainName(name) && c in [OPEN, CLOSE]
    ensures Outside(name + [OPEN] + t, c) == Outside(t, c) + if c == OPEN then 1 else 0
  {
    var head := name + [OPEN];
    if t == [] {
      NameCountsNothing(name);
      OutsideOneMore(name, OPEN, c);
      assert head + t == head;
    } else {
      var n := |t| - 1;
      var r := t[..n];
      OutsideBehindName(name, r, c);
      QuotesBehindName(name, r);
      assert t == r + [t[n]] && head + t == head + r + [t[n]];
      OutsideOneMore(r, t[n], c);
      OutsideOneMore(head + r, t[n], c);
    }
  }

  lemma {:induction false} NameCountsNothing(name: Text)
    requires PlainName(name)
    ensures QuoteMarks(name) == 0 && Outside(name, OPEN) == 0 && Outside(name, CLOSE) == 0
    ensures forall i :: 0 <= i < |name| ==> !TopLevelComma(name, i)
  {
    if name != [] {
      NameCountsNothing(name[..|name| - 1]);
    }
  }

  /** A function call with balanced arguments is never cut, whatever commas its arguments hold. */
  lemma CallIsOnePart(name: Text, args: Text)
    requires PlainName(name) && BalancedText(args)
    ensures Parts(name + [OPEN] + args + [CLOSE]) == [name + [OPEN] + args + [CLOSE]]
  {
    var t := name + [OPEN] + args + [CLOSE];
    forall i | 0 <= i < |t| ensures !TopLevelComma(t, i) {
      if |name| < i < |t| - 1 {
        var k := i - |name| - 1;
        assert t[..i] == name + [OPEN] + args[..k];
        QuotesBehindName(name, args[..k]);
        OutsideBehindName(name, args[..k], OPEN);
        OutsideBehindName(name, args[..k], CLOSE);
        assert Outside(args[..k], OPEN) >= Outside(args[..k], CLOSE);
      } else if i < |name| {
        assert t[i] == name[i];
      }
    }
    OnePiece(t);
    CutsAreCounted(t);
  }

  // ---------- Where the alias goes ----------

  /** The alias and a dot stand before the first argument, or before the whole expression where there is no call. */
  lemma AliasPlaced(e: Text, alias: Text)
    ensures OPEN !in e ==> Qualify(e, alias) == alias + [DOT] + e
    ensures OPEN in e ==> exists name, rest ::
              OPEN !in name && e == name + [OPEN] + rest && Qualify(e, alias) == name + [OPEN] + alias + [DOT] + rest
  {
    var n := IndexOf(e, OPEN);
    if OPEN in e {
      var name, rest := e[..n], e[n + 1..];
      assert e == name + [OPEN] + rest;
      assert Qualify(e, alias) == name + [OPEN] + alias + [DOT] + rest;
    }
  }

  lemma {:induction false} ColumnsConcat(a: seq<Text>, b: seq<Text>, alias: Text)
    ensures QualifiedColumns(a + b, alias) == QualifiedColumns(a, alias) + QualifiedColumns(b, alias)
  {
    if a == [] {
      assert a + b == b;
    } else {
      assert (a + b)[1..] == a[1..] + b;
      ColumnsConcat(a[1..], b, alias);
    }
  }

  /** Each part contributes its own column, or none when it is blank, in order. */
  lemma ColumnsOfParts(a: seq<Text>, part: Text, b: seq<Text>, alias: Text)
    ensures QualifiedColumns(a + [part] + b, alias)
         == QualifiedColumns(a, alias) + (if TrimSpace(part) == [] then [] else [Qualify(TrimSpace(part), alias)])
            + QualifiedColumns(b, alias)
  {
    ColumnsConcat(a + [part], b, alias);
    ColumnsConcat(a, [part], alias);
    OneColumn(part, alias);
  }

  lemma OneColumn(part: Text, alias: Text)
    ensures QualifiedColumns([part], alias)
         == if TrimSpace(part) == [] then [] else [Qualify(TrimSpace(part), alias)]
  {
    assert [part][1..] == [];
  }
}
