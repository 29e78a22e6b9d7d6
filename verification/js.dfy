/**
 * JavaScript values as the services and the validators see them, and the
 * string operations the pipeline applies to them (`trim`, ASCII lower-casing,
 * `split(' ')[0]`, and the substring test behind a `LIKE '%x%'` filter).
 */
module Js {

  /** A loosely typed field of a scraped record or a request. Only the
      distinctions the validators and truthiness tests make are kept. */
  datatype Value = Undefined | Null | Str(s: string) | Num(n: int) | Date(ms: int) | Obj

  /** JavaScript truthiness, as in `if (v)`. */
  predicate Truthy(v: Value) {
    match v
    case Undefined => false
    case Null => false
    case Str(s) => s != ""
    case Num(n) => n != 0
    case Date(_) => true
    case Obj => true
  }

  /** class-validator's `@IsOptional()` test: the value is `null` or `undefined`. */
  predicate Missing(v: Value) {
    v == Undefined || v == Null
  }

  /** `@IsNotEmpty() @IsString()`: a string other than `''`. */
  predicate NonEmptyString(v: Value) {
    v.Str? && v.s != ""
  }

  /** The payload of a value already known to be a string; `""` otherwise. */
  function AsString(v: Value): string {
    if v.Str? then v.s else ""
  }

  /** The characters `String.prototype.trim` removes: the ECMAScript
      WhiteSpace and LineTerminator code points. */
  predicate IsWhitespace(c: char) {
    var n := c as int;
    || n == 0x09 || n == 0x0A || n == 0x0B || n == 0x0C || n == 0x0D
    || n == 0x20 || n == 0xA0 || n == 0x1680 || (0x2000 <= n <= 0x200A)
    || n == 0x2028 || n == 0x2029 || n == 0x202F || n == 0x205F
    || n == 0x3000 || n == 0xFEFF
  }

  /** Drops leading whitespace: the result is a suffix of `s`, everything
      dropped is whitespace, and what is kept does not start with whitespace. */
  function TrimStart(s: string): (r: string)
    ensures |r| <= |s| && r == s[|s| - |r|..]
    ensures forall i :: 0 <= i < |s| - |r| ==> IsWhitespace(s[i])
    ensures r == [] || !IsWhitespace(r[0])
  {
    if s != [] && IsWhitespace(s[0]) then TrimStart(s[1..]) else s
  }

  /** Drops trailing whitespace: the mirror image of `TrimStart`. */
  function TrimEnd(s: string): (r: string)
    ensures |r| <= |s| && r == s[..|r|]
    ensures forall i :: |r| <= i < |s| ==> IsWhitespace(s[i])
    ensures r == [] || !IsWhitespace(r[|r| - 1])
  {
    if s != [] && IsWhitespace(s[|s| - 1]) then TrimEnd(s[..|s| - 1]) else s
  }

  /** `r` is `s` with `k` whitespace characters cut from the front and
      only whitespace cut from the back. */
  predicate StrippedAt(s: string, r: string, k: int) {
    && 0 <= k <= |s| - |r| && r == s[k..k + |r|]
    && (forall i :: 0 <= i < k ==> IsWhitespace(s[i]))
    && (forall i :: k + |r| <= i < |s| ==> IsWhitespace(s[i]))
  }

  /** `s.trim()`: the infix of `s` left after removing whitespace from both
      ends; it neither starts nor ends with whitespace. */
  function Trim(s: string): (r: string)
    ensures exists k :: StrippedAt(s, r, k)
    ensures r == [] || (!IsWhitespace(r[0]) && !IsWhitespace(r[|r| - 1]))
  {
    var a := TrimStart(s);
    var r := TrimEnd(a);
    StripBoth(s, a, r);
    r
  }

  /** Cutting whitespace from the front of `s` to get `a`, then from the back
      of `a` to get `r`, strips `s` at `|s| - |a|`. */
  lemma StripBoth(s: string, a: string, r: string)
    requires |a| <= |s| && a == s[|s| - |a|..]
    requires forall i :: 0 <= i < |s| - |a| ==> IsWhitespace(s[i])
    requires |r| <= |a| && r == a[..|r|]
    requires forall i :: |r| <= i < |a| ==> IsWhitespace(a[i])
    ensures StrippedAt(s, r, |s| - |a|)
  {
    var k := |s| - |a|;
    forall i | k + |r| <= i < |s|
      ensures IsWhitespace(s[i])
    {
      assert s[i] == a[i - k];
    }
  }

  /** Trimming a trimmed string changes nothing. */
  lemma TrimIdempotent(s: string)
    ensures Trim(Trim(s)) == Trim(s)
  {
    var t := Trim(s);
    if t != [] {
      assert TrimStart(t) == t;
      assert TrimEnd(t) == t;
    }
  }

  /** Lower-cases one character (ASCII letters only). */
  function LowerChar(c: char): char {
    if 'A' <= c <= 'Z' then (c as int + 32) as char else c
  }

  /** `s.toLowerCase()` restricted to ASCII letters. */
  function ToLower(s: string): (r: string)
    ensures |r| == |s|
    ensures forall i :: 0 <= i < |s| ==> r[i] == LowerChar(s[i])
    ensures forall i :: 0 <= i < |r| ==> !('A' <= r[i] <= 'Z')
    ensures forall i :: 0 <= i < |s| ==> !('A' <= s[i] <= 'Z') ==> r[i] == s[i]
  {
    seq(|s|, i requires 0 <= i < |s| => LowerChar(s[i]))
  }

  /** Lower-casing a lower-cased string changes nothing. */
  lemma ToLowerIdempotent(s: string)
    ensures ToLower(ToLower(s)) == ToLower(s)
  {
  }

  /** `s.split(' ')[0]`: the text before the first space, or all of `s`. */
  function FirstToken(s: string): (r: string)
    ensures r <= s
    ensures ' ' !in r
    ensures |r| < |s| ==> s[|r|] == ' '
  {
    if s == [] || s[0] == ' ' then [] else [s[0]] + FirstToken(s[1..])
  }

  /** `p` occurs as a contiguous part of `t`. */
  predicate Contains(t: string, p: string)
    decreases |t|
  {
    p <= t || (t != [] && Contains(t[1..], p))
  }

  /** `p` sits at offset `k` of `t`. */
  predicate OccursAt(t: string, p: string, k: int) {
    0 <= k <= |t| - |p| && t[k..k + |p|] == p
  }

  /** `Contains` holds exactly when `p` sits at some offset of `t`. */
  lemma {:induction false} ContainsAt(t: string, p: string)
    ensures Contains(t, p) <==> exists k :: OccursAt(t, p, k)
    decreases |t|
  {
    if p <= t {
      assert OccursAt(t, p, 0);
    } else if t == [] {
    } else {
      ContainsAt(t[1..], p);
      if exists k :: OccursAt(t, p, k) {
        var k :| OccursAt(t, p, k);
        assert k != 0;
        assert OccursAt(t[1..], p, k - 1);
      }
      if Contains(t[1..], p) {
        var k :| OccursAt(t[1..], p, k);
        assert OccursAt(t, p, k + 1);
      }
    }
  }
}
