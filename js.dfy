/** The few pieces of JavaScript semantics the worksheet relies on: plain
    objects compared key by key, String.prototype.trim, toLowerCase as far
    as the level keys need it, and the decimal text of an integer. */
module Js {

  datatype Option<T> = None | Some(value: T)

  /** A property value of the question records: a number or a string. */
  datatype Value = Num(n: int) | Str(s: string)

  /** A plain object, as its own enumerable properties. */
  type Object = map<string, Value>

  /** `shallowEqual(o1, o2)`: same number of keys, and every key of `o1` is
      an own property of `o2` holding a strictly equal value. */
  predicate ShallowEqual(o1: Object, o2: Object)
  {
    |o1.Keys| == |o2.Keys| &&
    forall key :: key in o1 ==> key in o2 && o1[key] == o2[key]
  }

  lemma SubsetOfSameSize<T>(a: set<T>, b: set<T>)
    requires a <= b && |a| == |b|
    ensures a == b
  {
    if a != b {
      assert !(b <= a);
      var x :| x in b && x !in a;
      assert a <= b - {x};
      assert |b - {x}| == |b| - 1;
      SubsetCardinality(a, b - {x});
      assert false;
    }
  }

  lemma {:induction false} SubsetCardinality<T>(a: set<T>, b: set<T>)
    requires a <= b
    ensures |a| <= |b|
  {
    if a != {} {
      var x :| x in a;
      SubsetCardinality(a - {x}, b - {x});
    }
  }

  /** Key-count equality plus one-way inclusion is exactly map equality,
      so shallowEqual is an equivalence relation on plain objects. */
  lemma ShallowEqualIsEquality(o1: Object, o2: Object)
    ensures ShallowEqual(o1, o2) <==> o1 == o2
  {
    if ShallowEqual(o1, o2) {
      SubsetOfSameSize(o1.Keys, o2.Keys);
      assert forall key :: key in o2 ==> key in o1 && o1[key] == o2[key];
    }
  }

  // ---------------------------------------------------------------------
  // String.prototype.trim

  /** ECMAScript WhiteSpace and LineTerminator code points, the set that
      `trim` strips from both ends. */
  predicate IsWhiteSpace(c: char)
  {
    c == '\t' || c == '\n' || c == '\U{000B}' || c == '\U{000C}' || c == '\r' ||
    c == ' ' || c == '\U{00A0}' || c == '\U{1680}' ||
    ('\U{2000}' <= c <= '\U{200A}') ||
    c == '\U{2028}' || c == '\U{2029}' || c == '\U{202F}' || c == '\U{205F}' ||
    c == '\U{3000}' || c == '\U{FEFF}'
  }

  /** Leading white space removed. */
  function TrimStart(s: string): string
  {
    if s != [] && IsWhiteSpace(s[0]) then TrimStart(s[1..]) else s
  }

  /** Trailing white space removed. */
  function TrimEnd(s: string): string
  {
    if s != [] && IsWhiteSpace(s[|s| - 1]) then TrimEnd(s[..|s| - 1]) else s
  }

  /** `TrimStart` keeps a suffix of `s` that does not start with white
      space, and everything it cuts off is white space. */
  lemma {:induction false} TrimStartIsSuffix(s: string)
    ensures var r := TrimStart(s);
      && |r| <= |s| && r == s[|s| - |r|..]
      && (r == [] || !IsWhiteSpace(r[0]))
      && (forall i :: 0 <= i < |s| - |r| ==> IsWhiteSpace(s[i]))
  {
    if s != [] && IsWhiteSpace(s[0]) {
      TrimStartIsSuffix(s[1..]);
    }
  }

  /** `TrimEnd` keeps a prefix of `s` that does not end with white space,
      and everything it cuts off is white space. */
  lemma {:induction false} TrimEndIsPrefix(s: string)
    ensures var r := TrimEnd(s);
      && |r| <= |s| && r == s[..|r|]
      && (r == [] || !IsWhiteSpace(r[|r| - 1]))
      && (forall i :: |r| <= i < |s| ==> IsWhiteSpace(s[i]))
  {
    if s != [] && IsWhiteSpace(s[|s| - 1]) {
      TrimEndIsPrefix(s[..|s| - 1]);
    }
  }

  function Trim(s: string): string
  {
    TrimEnd(TrimStart(s))
  }

  /** `trim` returns a contiguous slice of its argument with no white space
      at either end, and all that it drops is white space. */
  lemma TrimIsSlice(s: string)
    ensures exists lo, hi ::
              && 0 <= lo <= hi <= |s| && Trim(s) == s[lo..hi]
              && (forall i :: 0 <= i < lo ==> IsWhiteSpace(s[i]))
              && (forall i :: hi <= i < |s| ==> IsWhiteSpace(s[i]))
    ensures Trim(s) == [] || (!IsWhiteSpace(Trim(s)[0]) && !IsWhiteSpace(Trim(s)[|Trim(s)| - 1]))
  {
    var t := TrimStart(s);
    TrimStartIsSuffix(s);
    TrimEndIsPrefix(t);
    var lo := |s| - |t|;
    var hi := lo + |TrimEnd(t)|;
    assert Trim(s) == s[lo..hi];
    forall i | hi <= i < |s| ensures IsWhiteSpace(s[i]) {
      assert s[i] == t[i - lo];
    }
    if Trim(s) != [] {
      assert Trim(s)[0] == t[0];
    }
  }

  /** Trimming twice changes nothing more. */
  lemma TrimIdempotent(s: string)
    ensures Trim(Trim(s)) == Trim(s)
  {
    var t := Trim(s);
    TrimIsSlice(s);
    TrimEndIsPrefix(t);
    assert TrimEnd(t) == t;
  }

  // ---------------------------------------------------------------------
  // toLowerCase, as far as lookups of lower-case ASCII keys can tell

  /** Lower-case mapping of one code point: A-Z to a-z, and KELVIN SIGN
      (U+212A), whose full Unicode lower case is the ASCII letter k; every
      other code point is left as it is (see README). */
  function LowerChar(c: char): (r: char)
    ensures 'A' <= c <= 'Z' ==> r as int == c as int + 32
    ensures c == '\U{212A}' ==> r == 'k'
    ensures !('A' <= r <= 'Z')
  {
    if 'A' <= c <= 'Z' then (c as int + 32) as char
    else if c == '\U{212A}' then 'k'
    else c
  }

  function ToLower(s: string): (r: string)
    ensures |r| == |s|
    ensures forall i :: 0 <= i < |s| ==> r[i] == LowerChar(s[i])
  {
    seq(|s|, i requires 0 <= i < |s| => LowerChar(s[i]))
  }

  /** Lower-casing is idempotent and leaves a string without upper-case
      letters as it is. */
  lemma ToLowerIdempotent(s: string)
    ensures ToLower(ToLower(s)) == ToLower(s)
    ensures (forall i :: 0 <= i < |s| ==> !('A' <= s[i] <= 'Z') && s[i] != '\U{212A}') ==> ToLower(s) == s
  {
    assert forall i :: 0 <= i < |s| ==> ToLower(ToLower(s))[i] == ToLower(s)[i];
  }

  // ---------------------------------------------------------------------
  // Number to string (template literals, innerHTML of a number)

  function DigitChar(d: nat): (c: char)
    requires d < 10
    ensures '0' <= c <= '9' && c as int - '0' as int == d
  {
    ('0' as int + d) as char
  }

  predicate IsDigit(c: char) { '0' <= c <= '9' }

  /** Shortest decimal text of `n`. */
  function NatToString(n: nat): (r: string)
    ensures r != [] && forall i :: 0 <= i < |r| ==> IsDigit(r[i])
    ensures |r| > 1 ==> r[0] != '0'
    ensures IsDigit(r[|r| - 1])
  {
    if n < 10 then [DigitChar(n)] else NatToString(n / 10) + [DigitChar(n % 10)]
  }

  /** Value of a string of decimal digits. */
  function DigitsValue(s: string): nat
    requires forall i :: 0 <= i < |s| ==> IsDigit(s[i])
  {
    if s == [] then 0
    else
      assert IsDigit(s[|s| - 1]);
      DigitsValue(s[..|s| - 1]) * 10 + (s[|s| - 1] as int - '0' as int)
  }

  /** The decimal text of a number reads back as that number. */
  lemma {:induction false} NatToStringRoundTrip(n: nat)
    ensures DigitsValue(NatToString(n)) == n
  {
    if n >= 10 {
      var s := NatToString(n);
      assert s[..|s| - 1] == NatToString(n / 10);
      NatToStringRoundTrip(n / 10);
    }
  }

  /** Distinct numbers have distinct decimal texts. */
  lemma NatToStringInjective(m: nat, n: nat)
    ensures NatToString(m) == NatToString(n) <==> m == n
  {
    if NatToString(m) == NatToString(n) {
      NatToStringRoundTrip(m);
      NatToStringRoundTrip(n);
    }
  }

  /** `String(x)` of an integer-valued number. */
  function IntToString(x: int): (r: string)
    ensures r != []
    ensures x >= 0 <==> IsDigit(r[0])
    ensures x < 0 <==> r[0] == '-'
    ensures IsDigit(r[|r| - 1])
  {
    if x < 0 then "-" + NatToString(-x) else NatToString(x)
  }
}
