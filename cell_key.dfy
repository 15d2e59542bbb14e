/** getCellKey: the string `${row}-${col}` under which the searches store a
    cell in their sets and maps. The model keys those sets and maps by `Pos`
    directly; CellKeyInjective is why that changes nothing: on the
    non-negative coordinates every recorded cell has, two cells share a key
    exactly when they share a position. */
module CellKeys {
  import opened Types

  predicate IsDigit(c: char) {
    '0' <= c <= '9'
  }

  predicate AllDigits(s: string) {
    forall i :: 0 <= i < |s| ==> IsDigit(s[i])
  }

  function DigitChar(d: nat): (c: char)
    requires d < 10
    ensures IsDigit(c) && c as int - '0' as int == d
  {
    (d + '0' as int) as char
  }

  /** Decimal rendering of a natural number, as JavaScript's template
      strings produce it for integers below 10^21: no sign, no leading zeros. */
  function NatToString(n: nat): (s: string)
    ensures |s| > 0 && AllDigits(s)
    decreases n
  {
    if n < 10 then [DigitChar(n)] else NatToString(n / 10) + [DigitChar(n % 10)]
  }

  /** Decimal rendering of an integer: a minus sign in front of a negative one. */
  function IntToString(n: int): string {
    if n < 0 then "-" + NatToString(-n) else NatToString(n)
  }

  function CellKey(p: Pos): string {
    IntToString(p.row) + "-" + IntToString(p.col)
  }

  /** Reads a string of decimal digits back as a number. */
  function ParseNat(s: string): nat
    requires AllDigits(s)
  {
    if s == [] then 0 else ParseNat(s[..|s| - 1]) * 10 + (s[|s| - 1] as int - '0' as int)
  }

  /** Reading a rendered number gives the number back. */
  lemma {:induction false} ParseNatToString(n: nat)
    ensures ParseNat(NatToString(n)) == n
    decreases n
  {
    if n >= 10 {
      ParseNatToString(n / 10);
      var s := NatToString(n);
      assert s[..|s| - 1] == NatToString(n / 10);
    }
  }

  lemma NatToStringInjective(m: nat, n: nat)
    ensures NatToString(m) == NatToString(n) <==> m == n
  {
    ParseNatToString(m);
    ParseNatToString(n);
  }

  /** Distinct cells with non-negative coordinates have distinct keys. */
  lemma CellKeyInjective(p: Pos, q: Pos)
    requires p.row >= 0 && p.col >= 0 && q.row >= 0 && q.col >= 0
    ensures CellKey(p) == CellKey(q) <==> p == q
  {
    var a, b := NatToString(p.row), NatToString(p.col);
    var a', b' := NatToString(q.row), NatToString(q.col);
    var key, key' := a + "-" + b, a' + "-" + b';
    assert CellKey(p) == key && CellKey(q) == key';
    if key == key' {
      assert |a| == |a'| by {
        // The first '-' of a key sits right after the row's digits.
        assert key[|a|] == '-' && key'[|a'|] == '-';
        assert forall i :: 0 <= i < |a| ==> key[i] == a[i];
        assert forall i :: 0 <= i < |a'| ==> key'[i] == a'[i];
        assert forall i :: 0 <= i < |a'| ==> key'[i] != '-';
        assert forall i :: 0 <= i < |a| ==> key[i] != '-';
      }
      assert a == key[..|a|] && a' == key'[..|a'|];
      assert b == key[|a| + 1..] && b' == key'[|a'| + 1..];
      NatToStringInjective(p.row, q.row);
      NatToStringInjective(p.col, q.col);
    }
  }
}
