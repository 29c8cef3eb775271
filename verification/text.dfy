/** The JavaScript string built-ins the server relies on, with their ECMAScript meaning:
    `String.prototype.trim`, `String.prototype.split` on a one-character separator, and
    `parseInt(s, 10)`. Strings are sequences of characters; no encoding is involved. */
module Text {
  import opened Wrappers

  /** The WhiteSpace and LineTerminator code points of ECMA-262 (sections 12.2 and 12.3),
      the set that both `trim` and `parseInt` skip. */
  predicate IsSpace(c: char)
  {
    || c == '\t' || c == '\n' || c == '\U{000B}' || c == '\U{000C}' || c == '\r'
    || c == ' ' || c == '\U{00A0}' || c == '\U{1680}'
    || ('\U{2000}' <= c <= '\U{200A}')
    || c == '\U{2028}' || c == '\U{2029}' || c == '\U{202F}' || c == '\U{205F}'
    || c == '\U{3000}' || c == '\U{FEFF}'
  }

  /** `s` with its leading white space removed: a suffix of `s` that starts with a non-space. */
  function TrimStart(s: string): (r: string)
    ensures |r| <= |s| && r == s[|s| - |r|..]
    ensures forall i :: 0 <= i < |s| - |r| ==> IsSpace(s[i])
    ensures r == [] || !IsSpace(r[0])
  {
    if s != [] && IsSpace(s[0]) then TrimStart(s[1..]) else s
  }

  /** `s` with its trailing white space removed: a prefix of `s` that ends with a non-space. */
  function TrimEnd(s: string): (r: string)
    ensures |r| <= |s| && r == s[..|r|]
    ensures forall i :: |r| <= i < |s| ==> IsSpace(s[i])
    ensures r == [] || !IsSpace(r[|r| - 1])
  {
    if s != [] && IsSpace(s[|s| - 1]) then TrimEnd(s[..|s| - 1]) else s
  }

  /** `s.trim()`: the slice of `s` left after dropping white space at both ends. */
  function Trim(s: string): (r: string)
    ensures r == [] || (!IsSpace(r[0]) && !IsSpace(r[|r| - 1]))
    ensures exists i :: 0 <= i <= |s| - |r| && r == s[i..][..|r|]
                        && (forall k :: 0 <= k < i ==> IsSpace(s[k]))
                        && (forall k :: i + |r| <= k < |s| ==> IsSpace(s[k]))
    ensures forall c :: c in r ==> c in s
    ensures r == [] <==> forall k :: 0 <= k < |s| ==> IsSpace(s[k])
  {
    var t := TrimStart(s);
    var r := TrimEnd(t);
    var i := |s| - |t|;
    assert r == s[i..][..|r|];
    r
  }

  /** `s.split(sep)`: the maximal separator-free pieces between occurrences of `sep`.
      As in JavaScript, the empty string splits into one empty piece. */
  function Split(s: string, sep: char): (parts: seq<string>)
    ensures |parts| >= 1
    ensures forall i :: 0 <= i < |parts| ==> sep !in parts[i]
  {
    if s == [] then [[]]
    else
      var rest := Split(s[1..], sep);
      if s[0] == sep then [[]] + rest else [[s[0]] + rest[0]] + rest[1..]
  }

  /** `parts.join(sep)`. */
  function Join(parts: seq<string>, sep: char): string
  {
    if |parts| == 0 then []
    else if |parts| == 1 then parts[0]
    else parts[0] + [sep] + Join(parts[1..], sep)
  }

  /** Splitting loses nothing: joining the pieces back with the separator gives the input. */
  lemma {:induction false} JoinSplit(s: string, sep: char)
    ensures Join(Split(s, sep), sep) == s
  {
    if s != [] {
      var rest := Split(s[1..], sep);
      JoinSplit(s[1..], sep);
      if s[0] == sep {
        assert ([[]] + rest)[1..] == rest;
      } else if |rest| > 1 {
        var parts := [[s[0]] + rest[0]] + rest[1..];
        assert parts[1..] == rest[1..];
        assert Join(rest, sep) == rest[0] + [sep] + Join(rest[1..], sep);
      }
    }
  }

  /** The first piece of a split is the prefix of `s` up to (not including) the first
      separator, or all of `s` when it holds no separator. */
  lemma SplitHead(s: string, sep: char)
    ensures var head := Split(s, sep)[0];
            && head <= s
            && sep !in head
            && (|head| < |s| ==> s[|head|] == sep)
  {
    var parts := Split(s, sep);
    JoinSplit(s, sep);
    if |parts| > 1 {
      assert Join(parts, sep) == parts[0] + [sep] + Join(parts[1..], sep);
    }
  }

  /** A string without the separator splits into itself alone. */
  lemma {:induction false} SplitNoSep(s: string, sep: char)
    requires sep !in s
    ensures Split(s, sep) == [s]
  {
    if s != [] {
      assert sep !in s[1..] by {
        assert forall c :: c in s[1..] ==> c in s;
      }
      SplitNoSep(s[1..], sep);
      assert [s[0]] + s[1..] == s;
    }
  }

  /** For a list "a,rest" whose first entry `a` has no comma, the first piece is exactly `a`. */
  lemma {:induction false} SplitFirstEntry(a: string, sep: char, rest: string)
    requires sep !in a
    ensures Split(a + [sep] + rest, sep)[0] == a
  {
    var s := a + [sep] + rest;
    var head := Split(s, sep)[0];
    SplitHead(s, sep);
    assert s[..|a|] == a && s[|a|] == sep;
    assert |head| >= |a|;
    assert head[..|a|] == a;
  }

  predicate IsDigit(c: char)
  {
    '0' <= c <= '9'
  }

  predicate AllDigits(s: string)
  {
    forall i :: 0 <= i < |s| ==> IsDigit(s[i])
  }

  function DigitValue(c: char): nat
    requires IsDigit(c)
  {
    (c as int) - ('0' as int)
  }

  function DigitChar(d: nat): (c: char)
    requires d < 10
    ensures IsDigit(c) && DigitValue(c) == d
  {
    (('0' as int) + d) as char
  }

  /** The longest prefix of `s` made of decimal digits. */
  function LeadingDigits(s: string): (ds: string)
    ensures ds <= s && AllDigits(ds)
    ensures |ds| < |s| ==> !IsDigit(s[|ds|])
  {
    if s != [] && IsDigit(s[0]) then [s[0]] + LeadingDigits(s[1..]) else []
  }

  /** The number a string of decimal digits denotes, most significant digit first. */
  function DigitsValue(ds: string): nat
    requires AllDigits(ds)
  {
    if ds == [] then 0 else DigitsValue(ds[..|ds| - 1]) * 10 + DigitValue(ds[|ds| - 1])
  }

  /** `parseInt(s, 10)`: skip leading white space, read an optional sign, then the longest run of
      decimal digits. `None` is NaN, the result when no digit follows. The double rounding of
      values beyond 2^53 is not modelled. */
  function ParseInt(s: string): (n: Option<int>)
    ensures (forall i :: 0 <= i < |s| ==> !IsDigit(s[i])) ==> n.None?
    ensures s != [] && IsDigit(s[0]) ==> n.Some? && n.value >= 0
  {
    var t := TrimStart(s);
    TrimStartDigits(s);
    ParseSignedDigits(t);
    ParseSigned(t)
  }

  lemma DigitNotSpace(c: char)
    requires IsDigit(c)
    ensures !IsSpace(c)
  {
  }

  lemma TrimStartDigits(s: string)
    ensures s != [] && IsDigit(s[0]) ==> TrimStart(s) == s
    ensures (forall i :: 0 <= i < |s| ==> !IsDigit(s[i])) ==>
              forall i :: 0 <= i < |TrimStart(s)| ==> !IsDigit(TrimStart(s)[i])
  {
    if s != [] && IsDigit(s[0]) {
      TrimStartKeepsDigit(s);
    }
    if forall i :: 0 <= i < |s| ==> !IsDigit(s[i]) {
      TrimStartNoDigit(s);
    }
  }

  /** Trimming leading white space keeps a leading digit. */
  lemma TrimStartKeepsDigit(s: string)
    requires s != [] && IsDigit(s[0])
    ensures TrimStart(s) == s
  {
    DigitNotSpace(s[0]);
  }

  /** Trimming leading white space brings in no digit. */
  lemma TrimStartNoDigit(s: string)
    requires forall i :: 0 <= i < |s| ==> !IsDigit(s[i])
    ensures forall i :: 0 <= i < |TrimStart(s)| ==> !IsDigit(TrimStart(s)[i])
  {
    var t := TrimStart(s);
    assert forall i :: 0 <= i < |t| ==> t[i] == s[|s| - |t| + i];
  }

  /** The part of `parseInt` after the white space: an optional sign, then the longest run of
      decimal digits, with `None` when there is no digit. */
  function ParseSigned(t: string): Option<int>
  {
    var negative := t != [] && t[0] == '-';
    var unsigned := if t != [] && (t[0] == '-' || t[0] == '+') then t[1..] else t;
    var ds := LeadingDigits(unsigned);
    if ds == [] then None
    else
      var magnitude: int := DigitsValue(ds);
      Some(if negative then -magnitude else magnitude)
  }

  /** `parseInt` ignores leading white space. */
  lemma {:induction false} ParseSkipsSpace(w: string, s: string)
    requires forall i :: 0 <= i < |w| ==> IsSpace(w[i])
    ensures ParseInt(w + s) == ParseInt(s)
  {
    TrimStartSkipsSpace(w, s);
  }

  lemma {:induction false} TrimStartSkipsSpace(w: string, s: string)
    requires forall i :: 0 <= i < |w| ==> IsSpace(w[i])
    ensures TrimStart(w + s) == TrimStart(s)
  {
    if w != [] {
      assert (w + s)[1..] == w[1..] + s;
      TrimStartSkipsSpace(w[1..], s);
    } else {
      assert w + s == s;
    }
  }

  /** The decimal numeral of `n`, without sign or leading zeros. */
  function ShowNat(n: nat): (s: string)
    ensures s != [] && AllDigits(s)
  {
    if n < 10 then [DigitChar(n)] else ShowNat(n / 10) + [DigitChar(n % 10)]
  }

  lemma {:induction false} ValueOfShowNat(n: nat)
    ensures DigitsValue(ShowNat(n)) == n
  {
    if n >= 10 {
      var s := ShowNat(n);
      assert s[..|s| - 1] == ShowNat(n / 10);
      ValueOfShowNat(n / 10);
    }
  }

  lemma {:induction false} LeadingDigitsOfDigits(s: string)
    requires AllDigits(s)
    ensures LeadingDigits(s) == s
  {
    if s != [] {
      LeadingDigitsOfDigits(s[1..]);
    }
  }

  /** A string that starts with a digit parses as its leading run of digits. */
  lemma ParseDigits(s: string)
    requires s != [] && IsDigit(s[0])
    ensures ParseInt(s) == Some(DigitsValue(LeadingDigits(s)))
  {
    assert !IsSpace(s[0]);
  }

  /** `parseInt` reads back every decimal numeral. */
  lemma ParseShowNat(n: nat)
    ensures ParseInt(ShowNat(n)) == Some(n)
  {
    var s := ShowNat(n);
    ParseDigits(s);
    LeadingDigitsOfDigits(s);
    ValueOfShowNat(n);
  }

  /** No digit, no number; a leading digit, a non-negative number. */
  lemma ParseSignedDigits(t: string)
    ensures (forall i :: 0 <= i < |t| ==> !IsDigit(t[i])) ==> ParseSigned(t).None?
    ensures t != [] && IsDigit(t[0]) ==> ParseSigned(t).Some? && ParseSigned(t).value >= 0
  {
    var unsigned := if t != [] && (t[0] == '-' || t[0] == '+') then t[1..] else t;
    var ds := LeadingDigits(unsigned);
    assert ds != [] ==> ds[0] == t[|t| - |unsigned|];
  }

  lemma ParseSignedNeg(s: string)
    requires s != [] && AllDigits(s)
    ensures ParseSigned("-" + s) == Some(-(DigitsValue(s) as int))
  {
    assert ("-" + s)[1..] == s;
    LeadingDigitsOfDigits(s);
  }

  /** `parseInt` reads back every negated decimal numeral. */
  lemma ParseShowNeg(n: nat)
    ensures ParseInt("-" + ShowNat(n)) == Some(-(n as int))
  {
    var s := ShowNat(n);
    var m := "-" + s;
    assert m[0] == '-' && !IsSpace('-');
    assert TrimStart(m) == m;
    assert ParseInt(m) == ParseSigned(m);
    ParseSignedNeg(s);
    ValueOfShowNat(n);
  }

  /** `parseInt('-1', 10)` is -1. */
  lemma ParseMinusOne()
    ensures ParseInt("-1") == Some(-1)
  {
    var one := ShowNat(1);
    assert one == ['1'] by {
      assert DigitChar(1) == '1';
    }
    assert "-" + one == ['-', '1'] == "-1";
    ParseShowNeg(1);
  }

  /** `parseInt('100', 10)` is 100. */
  lemma ParseHundred()
    ensures ParseInt("100") == Some(100)
  {
    assert ShowNat(100) == ShowNat(10) + "0" == ShowNat(1) + "0" + "0" == "100";
    ParseShowNat(100);
  }
}
