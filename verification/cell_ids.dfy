/** DOM ids of grid cells. A cell with numeric id `n` is rendered as a node
    whose id is `"cell-" + n`; `Cell.getCellId` recovers `n` by splitting the
    node id on `-` and parsing the last piece. Only the all-digit form of
    `parseInt` is modelled: any other last piece yields `None`. */
module CellIds {
  import opened Optional

  const Separator: char := '-'
  const CellPrefix: string := "cell"

  /** `s.split('-')`: the maximal separator-free pieces of `s`, in order. */
  function Split(s: string): (r: seq<string>)
    ensures |r| >= 1
    ensures forall i :: 0 <= i < |r| ==> Separator !in r[i]
    decreases |s|
  {
    if |s| == 0 then [""]
    else
      var rest := Split(s[1..]);
      if s[0] == Separator then [""] + rest
      else [[s[0]] + rest[0]] + rest[1..]
  }

  /** `pieces.join('-')`, the inverse of `Split`. */
  function Join(pieces: seq<string>): string
    requires |pieces| >= 1
  {
    if |pieces| == 1 then pieces[0]
    else pieces[0] + [Separator] + Join(pieces[1..])
  }

  /** `s.split('-').pop()`: the text after the last separator, or all of `s`. */
  function LastToken(s: string): (t: string)
    ensures Separator !in t
  {
    var pieces := Split(s);
    pieces[|pieces| - 1]
  }

  predicate IsDigit(c: char) {
    '0' <= c <= '9'
  }

  /** A non-empty run of decimal digits: the input `parseInt` reads fully. */
  predicate IsDigits(s: string) {
    |s| > 0 && forall i :: 0 <= i < |s| ==> IsDigit(s[i])
  }

  function DigitValue(c: char): nat
    requires IsDigit(c)
  {
    c as int - '0' as int
  }

  function DigitChar(d: nat): char
    requires d < 10
  {
    ('0' as int + d) as char
  }

  /** The value of a decimal numeral (leading zeros allowed, as in `parseInt`). */
  function DigitsValue(s: string): nat
    requires forall i :: 0 <= i < |s| ==> IsDigit(s[i])
  {
    if |s| == 0 then 0
    else 10 * DigitsValue(s[..|s| - 1]) + DigitValue(s[|s| - 1])
  }

  /** The decimal text JavaScript produces for a non-negative integer. */
  function NatToDigits(n: nat): (s: string)
    ensures IsDigits(s)
    ensures Separator !in s
    ensures |s| == 1 || s[0] != '0'
  {
    if n < 10 then [DigitChar(n)]
    else NatToDigits(n / 10) + [DigitChar(n % 10)]
  }

  /** `parseInt` restricted to a token of digits; `None` plays the part of `NaN`. */
  function ParseNat(t: string): Option<nat> {
    if IsDigits(t) then Some(DigitsValue(t)) else None
  }

  /** The DOM id of the node of cell `id` (`"cell-" + this.id`). */
  function CellDomId(id: nat): string {
    CellPrefix + [Separator] + NatToDigits(id)
  }

  /** `Cell.getCellId`: the number after the last separator of a node id. */
  function GetCellId(idStr: string): Option<nat> {
    ParseNat(LastToken(idStr))
  }

  // ---------------------------------------------------------------------
  // Split and Join are inverse to each other.

  lemma {:induction false} SplitJoin(s: string)
    ensures Join(Split(s)) == s
    decreases |s|
  {
    if |s| > 0 {
      var rest := Split(s[1..]);
      SplitJoin(s[1..]);
      if s[0] == Separator {
        assert Split(s) == [""] + rest;
        assert ([""] + rest)[1..] == rest;
      } else if |rest| == 1 {
        assert Split(s) == [[s[0]] + rest[0]];
        assert s == [s[0]] + s[1..];
      } else {
        var r := Split(s);
        assert r == [[s[0]] + rest[0]] + rest[1..];
        assert r[1..] == rest[1..];
        assert Join(rest) == rest[0] + [Separator] + Join(rest[1..]);
        assert s == [s[0]] + s[1..];
      }
    }
  }

  /** A separator-free string is a single piece. */
  lemma {:induction false} SplitNoSeparator(t: string)
    requires Separator !in t
    ensures Split(t) == [t]
    decreases |t|
  {
    if |t| > 0 {
      assert t[0] in t;
      assert forall c :: c in t[1..] ==> c in t;
      SplitNoSeparator(t[1..]);
      assert t == [t[0]] + t[1..];
    }
  }

  /** Splitting around one separator splits each side on its own. */
  lemma {:induction false} SplitAround(a: string, b: string)
    ensures Split(a + [Separator] + b) == Split(a) + Split(b)
    decreases |a|
  {
    var s := a + [Separator] + b;
    if |a| == 0 {
      assert s[1..] == b;
    } else {
      assert s[1..] == a[1..] + [Separator] + b;
      SplitAround(a[1..], b);
      var rest := Split(s[1..]);
      assert rest == Split(a[1..]) + Split(b);
      if a[0] != Separator {
        assert rest[0] == Split(a[1..])[0];
        assert rest[1..] == Split(a[1..])[1..] + Split(b);
      }
    }
  }

  /** Pieces without separators joined and split again come back unchanged. */
  lemma {:induction false} JoinSplit(pieces: seq<string>)
    requires |pieces| >= 1
    requires forall i :: 0 <= i < |pieces| ==> Separator !in pieces[i]
    ensures Split(Join(pieces)) == pieces
    decreases |pieces|
  {
    SplitNoSeparator(pieces[0]);
    if |pieces| > 1 {
      JoinSplit(pieces[1..]);
      SplitAround(pieces[0], Join(pieces[1..]));
      assert pieces == [pieces[0]] + pieces[1..];
    }
  }

  /** Only the text after the last separator matters. */
  lemma LastTokenAfterSeparator(prefix: string, t: string)
    requires Separator !in t
    ensures LastToken(prefix + [Separator] + t) == t
  {
    SplitAround(prefix, t);
    SplitNoSeparator(t);
  }

  // ---------------------------------------------------------------------
  // Decimal numerals.

  lemma {:induction false} DigitsRoundTrip(n: nat)
    ensures ParseNat(NatToDigits(n)) == Some(n)
  {
    var s := NatToDigits(n);
    if n < 10 {
      assert s[..0] == [];
      assert DigitValue(s[0]) == n;
      assert DigitsValue(s) == 10 * DigitsValue(s[..0]) + DigitValue(s[0]);
    } else {
      DigitsRoundTrip(n / 10);
      assert s[..|s| - 1] == NatToDigits(n / 10);
      assert DigitValue(s[|s| - 1]) == n % 10;
    }
  }

  lemma {:induction false} DigitsValuePositive(s: string)
    requires IsDigits(s) && s[0] != '0'
    ensures DigitsValue(s) >= 1
    ensures |s| >= 2 ==> DigitsValue(s) >= 10
    decreases |s|
  {
    if |s| >= 2 {
      var p := s[..|s| - 1];
      assert p[0] == s[0];
      DigitsValuePositive(p);
    }
  }

  /** A numeral without leading zeros is exactly the text of its value. */
  lemma {:induction false} CanonicalDigits(s: string)
    requires IsDigits(s)
    requires |s| == 1 || s[0] != '0'
    ensures NatToDigits(DigitsValue(s)) == s
    decreases |s|
  {
    var v := DigitsValue(s);
    if |s| == 1 {
      assert s[..0] == [];
    } else {
      var p := s[..|s| - 1];
      assert p[0] == s[0];
      DigitsValuePositive(s);
      CanonicalDigits(p);
      assert v / 10 == DigitsValue(p);
      assert DigitChar(v % 10) == s[|s| - 1];
      assert s == p + [s[|s| - 1]];
    }
  }

  // ---------------------------------------------------------------------
  // Cell ids.

  /** `getCellId` reads back the id written at node creation, whatever
      separator-containing prefix precedes it. */
  lemma GetCellIdAfterPrefix(prefix: string, n: nat)
    ensures GetCellId(prefix + [Separator] + NatToDigits(n)) == Some(n)
  {
    LastTokenAfterSeparator(prefix, NatToDigits(n));
    DigitsRoundTrip(n);
  }

  lemma GetCellIdOfDomId(n: nat)
    ensures GetCellId(CellDomId(n)) == Some(n)
  {
    GetCellIdAfterPrefix(CellPrefix, n);
  }

  /** Distinct cells get distinct DOM ids, so `getElementById` finds one node. */
  lemma CellDomIdInjective(a: nat, b: nat)
    ensures CellDomId(a) == CellDomId(b) <==> a == b
  {
    GetCellIdOfDomId(a);
    GetCellIdOfDomId(b);
  }

  /** A parsed id names the cell whose DOM id is the canonical form of the
      last piece: every id `getCellId` accepts without leading zeros is a
      `CellDomId` up to its prefix. */
  lemma GetCellIdCanonical(idStr: string, n: nat)
    requires GetCellId(idStr) == Some(n)
    requires |LastToken(idStr)| == 1 || LastToken(idStr)[0] != '0'
    ensures LastToken(idStr) == NatToDigits(n)
  {
    CanonicalDigits(LastToken(idStr));
  }

  /** The examples the design gives: `cell-42` reads 42, `cell-7-extra-9`
      reads 9, and a node id with no digits after its last separator fails. */
  lemma GetCellIdExamples()
    ensures GetCellId("cell-42") == Some(42)
    ensures GetCellId("cell-7-extra-9") == Some(9)
    ensures GetCellId("cell-") == None
    ensures GetCellId("cell-x") == None
  {
    assert NatToDigits(42) == "42";
    assert "cell-42" == "cell" + [Separator] + NatToDigits(42);
    GetCellIdAfterPrefix("cell", 42);
    assert NatToDigits(9) == "9";
    assert "cell-7-extra-9" == "cell-7-extra" + [Separator] + NatToDigits(9);
    GetCellIdAfterPrefix("cell-7-extra", 9);
    LastTokenAfterSeparator("cell", "");
    assert "cell-" == "cell" + [Separator] + "";
    LastTokenAfterSeparator("cell", "x");
    assert "cell-x" == "cell" + [Separator] + "x";
    assert !IsDigit('x');
  }
}
