/**
 Text utilities: numbers in base 10 and 16, splitting at a separator, searching.
 */
module Text {
  import opened Words
  import opened Address

  // ---- Digits ----

  function DigitValue(c: char): nat {
    if '0' <= c <= '9' then c as int - '0' as int
    else if 'a' <= c <= 'f' then c as int - 'a' as int + 10
    else if 'A' <= c <= 'F' then c as int - 'A' as int + 10
    else 99
  }

  function DigitChar(d: nat, upper: bool): (c: char)
    requires d < 16
    ensures DigitValue(c) == d
    ensures c !in ":.,-%[]"
  {
    if d < 10 then ('0' as int + d) as char
    else if upper then ('A' as int + d - 10) as char
    else ('a' as int + d - 10) as char
  }

  predicate AllDigits(s: string, base: nat) {
    forall i :: 0 <= i < |s| ==> DigitValue(s[i]) < base
  }

  function NumberValue(s: string, base: nat): nat {
    if s == "" then 0 else NumberValue(s[..|s| - 1], base) * base + DigitValue(s[|s| - 1])
  }

  /** `from_chars` on the whole text: digits only, at least one, in range. */
  function FromChars(s: string, base: nat, max: nat): (r: Option<nat>)
    ensures r.Some? ==> r.value <= max
  {
    if s != "" && AllDigits(s, base) && NumberValue(s, base) <= max then Some(NumberValue(s, base)) else None
  }

  /** A number without leading zeros. */
  function Number(n: nat, base: nat, upper: bool): (s: string)
    requires 2 <= base <= 16
    ensures s != ""
    decreases n
  {
    if n < base then [DigitChar(n, upper)] else Number(n / base, base, upper) + [DigitChar(n % base, upper)]
  }

  lemma {:induction false} NumberReads(n: nat, base: nat, upper: bool)
    requires 2 <= base <= 16
    ensures AllDigits(Number(n, base, upper), base) && NumberValue(Number(n, base, upper), base) == n
    decreases n
  {
    hide NumberValue, AllDigits, DigitChar, DigitValue;
    if n < base {
      OneDigit(DigitChar(n, upper), base);
    } else {
      QuotientRemainder(n, base);
      NumberReads(n / base, base, upper);
      DigitAppended(Number(n / base, base, upper), DigitChar(n % base, upper), base);
    }
  }

  lemma OneDigit(c: char, base: nat)
    requires DigitValue(c) < base
    ensures AllDigits([c], base) && NumberValue([c], base) == DigitValue(c)
  {
    hide DigitValue;
    assert [c][..0] == "" && NumberValue("", base) == 0;
  }

  lemma DigitAppended(t: string, c: char, base: nat)
    requires AllDigits(t, base) && DigitValue(c) < base
    ensures AllDigits(t + [c], base) && NumberValue(t + [c], base) == NumberValue(t, base) * base + DigitValue(c)
  {
    hide DigitValue;
    assert (t + [c])[..|t|] == t;
  }

  lemma QuotientRemainder(n: nat, base: nat)
    requires base > 0
    ensures n / base * base + n % base == n
    ensures n > 0 && base >= 2 ==> n / base < n
  {
  }

  /** Digits are never separators. */
  predicate Plain(s: string) {
    forall i :: 0 <= i < |s| ==> s[i] !in ":.,-%[]"
  }

  lemma {:induction false} NumberPlain(n: nat, base: nat, upper: bool)
    requires 2 <= base <= 16
    ensures Plain(Number(n, base, upper))
    decreases n
  {
    if n >= base { NumberPlain(n / base, base, upper); }
  }

  lemma HexLength(v: u16, upper: bool)
    ensures |Number(v, 16, upper)| <= 4
  {
    hide DigitChar;
    var v1 := v / 16;
    var v2 := v1 / 16;
    var v3 := v2 / 16;
    assert v3 < 16;
    assert |Number(v3, 16, upper)| == 1;
    assert |Number(v2, 16, upper)| <= 2;
    assert |Number(v1, 16, upper)| <= 3;
  }

  /** A field of an IPv6 address has at most four digits. */
  lemma HexField(v: u16, upper: bool)
    ensures FromChars(Number(v, 16, upper), 16, 0xffff) == Some(v)
    ensures Plain(Number(v, 16, upper)) && 0 < |Number(v, 16, upper)| <= 4
  {
    NumberReads(v, 16, upper);
    NumberPlain(v, 16, upper);
    HexLength(v, upper);
  }

  lemma DecimalField(v: nat, max: nat)
    requires v <= max
    ensures FromChars(Number(v, 10, false), 10, max) == Some(v) && Plain(Number(v, 10, false))
  {
    NumberReads(v, 10, false);
    NumberPlain(v, 10, false);
  }

  // ---- Splitting ----

  predicate Free(s: string, sep: char) {
    sep !in s
  }

  /** The tokens between separators; always at least one. */
  function Split(s: string, sep: char): (gs: seq<string>)
    ensures |gs| >= 1
  {
    if s == "" then [""]
    else
      var rest := Split(s[1..], sep);
      if s[0] == sep then [""] + rest else [[s[0]] + rest[0]] + rest[1..]
  }

  function Join(gs: seq<string>, sep: char): string
    requires |gs| >= 1
  {
    if |gs| == 1 then gs[0] else gs[0] + [sep] + Join(gs[1..], sep)
  }

  lemma {:induction false} SplitFree(s: string, sep: char)
    requires Free(s, sep)
    ensures Split(s, sep) == [s]
  {
    if s != "" {
      assert s[0] in s && forall c :: c in s[1..] ==> c in s;
      SplitFree(s[1..], sep);
      assert s == [s[0]] + s[1..];
    }
  }

  lemma {:induction false} SplitAfter(g: string, sep: char, rest: string)
    requires Free(g, sep)
    ensures Split(g + [sep] + rest, sep) == [g] + Split(rest, sep)
  {
    if g == "" {
      assert (g + [sep] + rest)[1..] == rest;
    } else {
      assert g[0] in g && forall c :: c in g[1..] ==> c in g;
      SplitAfter(g[1..], sep, rest);
      assert (g + [sep] + rest)[1..] == g[1..] + [sep] + rest;
      assert g == [g[0]] + g[1..];
    }
  }

  /** Splitting what was joined gives the groups back. */
  lemma {:induction false} SplitJoin(gs: seq<string>, sep: char)
    requires |gs| >= 1 && forall i :: 0 <= i < |gs| ==> Free(gs[i], sep)
    ensures Split(Join(gs, sep), sep) == gs
  {
    if |gs| == 1 {
      SplitFree(gs[0], sep);
    } else {
      SplitJoin(gs[1..], sep);
      SplitAfter(gs[0], sep, Join(gs[1..], sep));
    }
  }

  lemma {:induction false} JoinAppend(a: seq<string>, g: string, sep: char)
    requires |a| >= 1
    ensures Join(a + [g], sep) == Join(a, sep) + [sep] + g
  {
    if |a| == 1 {
      assert (a + [g])[1..] == [g];
    } else {
      JoinAppend(a[1..], g, sep);
      assert (a + [g])[1..] == a[1..] + [g];
    }
  }

  /** A character that occurs in no group and is not the separator does not occur in the text. */
  lemma {:induction false} JoinFree(gs: seq<string>, sep: char, c: char)
    requires |gs| >= 1 && c != sep && forall i :: 0 <= i < |gs| ==> Free(gs[i], c)
    ensures Free(Join(gs, sep), c)
  {
    if |gs| > 1 { JoinFree(gs[1..], sep, c); }
  }

  // ---- Searching ----

  function Find(s: string, c: char): (r: Option<nat>)
    ensures r.Some? ==> r.value < |s| && s[r.value] == c && c !in s[..r.value]
    ensures r.None? <==> c !in s
  {
    if s == "" then None
    else if s[0] == c then Some(0)
    else
      var r := Find(s[1..], c);
      assert s == [s[0]] + s[1..];
      if r.None? then None else
        assert s[..r.value + 1] == [s[0]] + s[1..][..r.value];
        Some(r.value + 1)
  }

  function RFind(s: string, c: char): (r: Option<nat>)
    ensures r.Some? ==> r.value < |s| && s[r.value] == c && c !in s[r.value + 1..]
    ensures r.None? <==> c !in s
  {
    if s == "" then None
    else
      var n := |s| - 1;
      assert s == s[..n] + [s[n]];
      if s[n] == c then Some(n)
      else
        var r := RFind(s[..n], c);
        assert r.Some? ==> s[r.value + 1..] == s[..n][r.value + 1..] + [s[n]];
        r
  }

  lemma FindAt(a: string, c: char, b: string)
    requires Free(a, c)
    ensures Find(a + [c] + b, c) == Some(|a|)
  {
    hide Find;
    var s := a + [c] + b;
    assert s[|a|] == c;
    var r := Find(s, c).value;
    forall k | 0 <= k < r ensures s[k] != c { assert s[k] in s[..r]; }
    forall k | 0 <= k < |a| ensures s[k] != c { assert s[k] in a; }
  }

  lemma RFindAt(a: string, c: char, b: string)
    requires Free(b, c)
    ensures RFind(a + [c] + b, c) == Some(|a|)
  {
    hide RFind;
    var s := a + [c] + b;
    assert s[|a|] == c;
    var r := RFind(s, c).value;
    forall k | r < k < |s| ensures s[k] != c { assert s[k] == s[r + 1..][k - r - 1]; }
    forall k | |a| < k < |s| ensures s[k] != c { assert s[k] == b[k - |a| - 1] && b[k - |a| - 1] in b; }
  }
}
