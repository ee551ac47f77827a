/**
 * The Python 2 `str` operations the modelled code relies on: `strip()`,
 * `startswith`, `split(sep, 1)` unpacked into two names, `int()` of a
 * decimal literal, `str()` of an integer, and `<=` between strings.
 */
module PyStr {
  import opened Wrappers

  /** The characters `str.strip()` removes (ASCII whitespace). */
  predicate IsSpace(c: char) {
    c == ' ' || c == '\t' || c == '\n' || c == '\r' || c == '\U{0B}' || c == '\U{0C}'
  }

  predicate AllSpace(s: string) {
    forall k :: 0 <= k < |s| ==> IsSpace(s[k])
  }

  /** The first index at or after `i` that does not hold whitespace. */
  function SpanLeft(s: string, i: nat): (k: nat)
    requires i <= |s|
    ensures i <= k <= |s|
    ensures k < |s| ==> !IsSpace(s[k])
    ensures forall m :: i <= m < k ==> IsSpace(s[m])
    decreases |s| - i
  {
    if i == |s| || !IsSpace(s[i]) then i else SpanLeft(s, i + 1)
  }

  /** The end of `s[..j]` once its trailing whitespace is cut off. */
  function SpanRight(s: string, j: nat): (k: nat)
    requires j <= |s|
    ensures k <= j
    ensures k > 0 ==> !IsSpace(s[k - 1])
    ensures forall m :: k <= m < j ==> IsSpace(s[m])
  {
    if j == 0 || !IsSpace(s[j - 1]) then j else SpanRight(s, j - 1)
  }

  /** Python's `s.strip()`: `s` without its leading and trailing whitespace. */
  function Strip(s: string): (r: string)
    ensures r == [] || (!IsSpace(r[0]) && !IsSpace(r[|r| - 1]))
  {
    var i := SpanLeft(s, 0);
    if i == |s| then
      assert s[i..i] == [];
      []
    else
      var j := SpanRight(s, |s|);
      assert !IsSpace(s[i]);
      assert i < j;
      s[i..j]
  }

  /** The stripped string is a piece of `s` with only whitespace cut away on either side. */
  lemma StripShape(s: string)
    ensures exists i, j :: 0 <= i <= j <= |s| && Strip(s) == s[i..j] &&
                           (forall m :: 0 <= m < i ==> IsSpace(s[m])) &&
                           (forall m :: j <= m < |s| ==> IsSpace(s[m]))
  {
    var i := SpanLeft(s, 0);
    if i == |s| {
      assert Strip(s) == s[i..i];
    } else {
      var j := SpanRight(s, |s|);
      assert !IsSpace(s[i]);
      assert Strip(s) == s[i..j];
    }
  }

  /** Stripping a string with no whitespace at either end leaves it as it is. */
  lemma StripPlain(s: string)
    requires s != [] && !IsSpace(s[0]) && !IsSpace(s[|s| - 1])
    ensures Strip(s) == s
  {
    assert SpanLeft(s, 0) == 0;
    assert SpanRight(s, |s|) == |s|;
    assert s[0..|s|] == s;
  }

  /** Stripping is idempotent. */
  lemma StripIdempotent(s: string)
    ensures Strip(Strip(s)) == Strip(s)
  {
    if Strip(s) != [] {
      StripPlain(Strip(s));
    }
  }

  /** `s.strip()` is empty exactly when `s` is blank. */
  lemma StripEmptyIffBlank(s: string)
    ensures Strip(s) == [] <==> AllSpace(s)
  {
    var i := SpanLeft(s, 0);
    if i < |s| {
      assert !IsSpace(s[i]);
    }
  }

  /** Python's `s.startswith(prefix)`. */
  predicate StartsWith(s: string, prefix: string) {
    |prefix| <= |s| && s[..|prefix|] == prefix
  }

  /** Index of the first `sep` in `s`, or `|s|` when there is none. */
  function FindChar(s: string, sep: char): (k: nat)
    ensures k <= |s|
    ensures k < |s| ==> s[k] == sep
    ensures sep !in s[..k]
  {
    if s == [] then 0
    else if s[0] == sep then 0
    else
      var k := FindChar(s[1..], sep);
      assert s[..k + 1] == [s[0]] + s[1..][..k];
      k + 1
  }

  /**
   * `head, tail = s.split(sep, 1)`: the two sides of the first `sep`;
   * `None` where Python raises ValueError because there is no `sep`.
   */
  function SplitOnce(s: string, sep: char): (r: Option<(string, string)>)
    ensures r.None? <==> sep !in s
    ensures r.Some? ==> r.value.0 + [sep] + r.value.1 == s && sep !in r.value.0
  {
    var k := FindChar(s, sep);
    if k == |s| then
      assert s[..k] == s;
      None
    else
      assert s == s[..k] + [sep] + s[k + 1..];
      Some((s[..k], s[k + 1..]))
  }

  /** Splitting a joined pair at the first separator gives the pair back. */
  lemma {:induction false} SplitOnceJoin(x: string, sep: char, y: string)
    requires sep !in x
    ensures SplitOnce(x + [sep] + y, sep) == Some((x, y))
  {
    FindCharJoin(x, sep, y);
    var s := x + [sep] + y;
    assert s[..|x|] == x && s[|x| + 1..] == y;
  }

  lemma {:induction false} FindCharJoin(x: string, sep: char, y: string)
    requires sep !in x
    ensures FindChar(x + [sep] + y, sep) == |x|
  {
    if x != [] {
      assert (x + [sep] + y)[1..] == x[1..] + [sep] + y;
      FindCharJoin(x[1..], sep, y);
    }
  }

  predicate IsDigit(c: char) {
    '0' <= c <= '9'
  }

  predicate AllDigits(s: string) {
    forall k :: 0 <= k < |s| ==> IsDigit(s[k])
  }

  /** The value of a string of decimal digits. */
  function DigitsValue(ds: string): (n: nat)
    requires AllDigits(ds)
  {
    if ds == [] then 0
    else DigitsValue(ds[..|ds| - 1]) * 10 + (ds[|ds| - 1] as int - '0' as int)
  }

  /**
   * Python 2's `int(s)`: surrounding whitespace, an optional sign, which
   * whitespace may follow, and at least one decimal digit; `None` where
   * Python raises ValueError.
   */
  function ParseInt(s: string): Option<int> {
    ParseStripped(Strip(s))
  }

  /** `int()` once the surrounding whitespace is gone. */
  function ParseStripped(t: string): Option<int> {
    if t == [] then None
    else if t[0] == '-' || t[0] == '+' then
      var ds := t[SpanLeft(t, 1)..];
      if ds != [] && AllDigits(ds) then
        var v: int := DigitsValue(ds);
        Some(if t[0] == '-' then -v else v)
      else None
    else if AllDigits(t) then Some(DigitsValue(t))
    else None
  }

  /** Decimal digits of `n`, without leading zeros. */
  function NatToDigits(n: nat): (ds: string)
    ensures ds != [] && AllDigits(ds)
    ensures DigitsValue(ds) == n
  {
    if n < 10 then ['0' + n as char]
    else
      var ds := NatToDigits(n / 10) + ['0' + (n % 10) as char];
      assert ds[..|ds| - 1] == NatToDigits(n / 10);
      ds
  }

  /** Python's `str(n)` for an integer `n`. */
  function IntToString(n: int): (s: string)
    ensures s != [] && !IsSpace(s[0])
    ensures forall k :: 0 <= k < |s| ==> s[k] == '-' || IsDigit(s[k])
  {
    if n < 0 then "-" + NatToDigits(-n) else NatToDigits(n)
  }

  /** `int(str(n)) == n`: rendering an integer and parsing it back is the identity. */
  lemma ParseIntToString(n: int)
    ensures ParseInt(IntToString(n)) == Some(n)
  {
    if n < 0 {
      ParseNegativeDigits(NatToDigits(-n));
    } else {
      ParseDigits(NatToDigits(n));
    }
  }

  lemma ParseDigits(ds: string)
    requires ds != [] && AllDigits(ds)
    ensures ParseInt(ds) == Some(DigitsValue(ds))
  {
    StripPlain(ds);
  }

  lemma ParseNegativeDigits(ds: string)
    requires ds != [] && AllDigits(ds)
    ensures ParseInt("-" + ds) == Some(0 - DigitsValue(ds))
  {
    var s := "-" + ds;
    assert s[1..] == ds;
    assert s[|s| - 1] == ds[|ds| - 1];
    StripPlain(s);
    assert !IsSpace(s[1]);
  }

  /** Whitespace may stand between the sign and the digits: `int("- 5") == int("-5")`. */
  lemma ParseSpacedSign(sign: char, sp: string, ds: string)
    requires sign == '-' || sign == '+'
    requires AllSpace(sp) && ds != [] && AllDigits(ds)
    ensures ParseInt([sign] + sp + ds) == ParseInt([sign] + ds)
  {
    var s, s' := [sign] + sp + ds, [sign] + ds;
    var k := 1 + |sp|;
    assert s[|s| - 1] == ds[|ds| - 1] == s'[|s'| - 1];
    StripPlain(s);
    StripPlain(s');
    assert s[k..] == ds && s[1..k] == sp && s'[1..] == ds;
    assert s[k] == ds[0] == s'[1];
    SpanLeftStops(s, 1, k);
    SpanLeftStops(s', 1, 1);
    assert ParseStripped(s) == ParseStripped(s');
  }

  lemma SpanLeftStops(s: string, i: nat, k: nat)
    requires i <= k < |s| && !IsSpace(s[k])
    requires AllSpace(s[i..k])
    ensures SpanLeft(s, i) == k
  {
    assert forall m :: i <= m < k ==> s[m] == s[i..k][m - i];
  }

  /** Python's `a <= b` on strings: lexicographic by character code. */
  predicate StrLe(a: string, b: string) {
    if a == [] then true
    else if b == [] then false
    else if a[0] != b[0] then a[0] < b[0]
    else StrLe(a[1..], b[1..])
  }

  lemma {:induction false} StrLeTotalAt(a: string, b: string)
    ensures StrLe(a, b) || StrLe(b, a)
  {
    if a != [] && b != [] && a[0] == b[0] {
      StrLeTotalAt(a[1..], b[1..]);
    }
  }

  lemma StrLeTotal()
    ensures forall a, b :: StrLe(a, b) || StrLe(b, a)
  {
    forall a, b ensures StrLe(a, b) || StrLe(b, a) {
      StrLeTotalAt(a, b);
    }
  }

  lemma {:induction false} StrLeTransitiveAt(a: string, b: string, c: string)
    requires StrLe(a, b) && StrLe(b, c)
    ensures StrLe(a, c)
  {
    if a != [] && b != [] && c != [] && a[0] == b[0] && b[0] == c[0] {
      StrLeTransitiveAt(a[1..], b[1..], c[1..]);
    }
  }

  lemma StrLeTransitive()
    ensures forall a, b, c :: StrLe(a, b) && StrLe(b, c) ==> StrLe(a, c)
  {
    forall a, b, c | StrLe(a, b) && StrLe(b, c) ensures StrLe(a, c) {
      StrLeTransitiveAt(a, b, c);
    }
  }
}
