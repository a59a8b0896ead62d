/** Value types and string helpers shared by every route of the model.

    JavaScript strings are sequences of UTF-16 code units; the model uses Dafny's `string`
    (a sequence of Unicode scalar values), which agrees with them outside surrogate pairs. */
module Base {

  /** A value that may be absent: JavaScript's `null`/`undefined` against a present value. */
  datatype Option<+T> = None | Some(value: T) {
    function GetOr(default: T): T {
      match this
      case Some(v) => v
      case None => default
    }
  }

  /** The outcome of a call into the hosted store: rows, or an error carrying its message. */
  datatype Result<+T> = Ok(value: T) | Err(message: string)

  /** JavaScript's `v || d` for a string-valued parameter: the default replaces a missing
      value and the empty string, the two falsy strings. */
  function Or(v: Option<string>, default: string): (r: string)
    ensures v.Some? && v.value != "" ==> r == v.value
    ensures v.None? || v.value == "" ==> r == default
  {
    if v.Some? && v.value != "" then v.value else default
  }

  /** JavaScript's `e?.message || "Unknown error"`, the catch-all of every route. */
  function ErrorText(message: string): (r: string)
    ensures r != ""
    ensures message != "" ==> r == message
    ensures message == "" ==> r == "Unknown error"
  {
    if message == "" then "Unknown error" else message
  }

  /** The characters `String.prototype.trim` removes: WhiteSpace and LineTerminator of
      ECMAScript (section 12.2 and 12.3 of ECMA-262). */
  predicate IsSpace(c: char) {
    || c == ' ' || c == '\t' || c == '\n' || c == '\r'
    || c == '\U{000B}' || c == '\U{000C}' || c == '\U{00A0}' || c == '\U{1680}'
    || ('\U{2000}' <= c <= '\U{200A}')
    || c == '\U{2028}' || c == '\U{2029}' || c == '\U{202F}' || c == '\U{205F}'
    || c == '\U{3000}' || c == '\U{FEFF}'
  }

  function TrimStart(s: string): (r: string)
    ensures |r| <= |s| && r == s[|s| - |r|..]
    ensures forall k :: 0 <= k < |s| - |r| ==> IsSpace(s[k])
    ensures r == [] || !IsSpace(r[0])
  {
    if |s| > 0 && IsSpace(s[0]) then TrimStart(s[1..]) else s
  }

  function TrimEnd(s: string): (r: string)
    ensures |r| <= |s| && r == s[..|r|]
    ensures forall k :: |r| <= k < |s| ==> IsSpace(s[k])
    ensures r == [] || !IsSpace(r[|r| - 1])
  {
    if |s| > 0 && IsSpace(s[|s| - 1]) then TrimEnd(s[..|s| - 1]) else s
  }

  /** `r` is the infix of `s` at `i` and everything around it is whitespace. */
  predicate StripsTo(s: string, r: string, i: int) {
    && 0 <= i <= |s| - |r| && r == s[i..i + |r|]
    && (forall k :: 0 <= k < i ==> IsSpace(s[k]))
    && (forall k :: i + |r| <= k < |s| ==> IsSpace(s[k]))
  }

  /** `String.prototype.trim`: the infix of `s` left after removing leading and trailing
      whitespace. */
  function Trim(s: string): (r: string)
    ensures exists i :: StripsTo(s, r, i)
    ensures r == [] || (!IsSpace(r[0]) && !IsSpace(r[|r| - 1]))
  {
    TrimStartThenEnd(s);
    TrimEnd(TrimStart(s))
  }

  lemma TrimStartThenEnd(s: string)
    ensures StripsTo(s, TrimEnd(TrimStart(s)), |s| - |TrimStart(s)|)
  {
    TrimmedIsInfix(s);
    TrailingIsSpace(s);
  }

  lemma TrimmedIsInfix(s: string)
    ensures var i := |s| - |TrimStart(s)|;
            TrimEnd(TrimStart(s)) == s[i..i + |TrimEnd(TrimStart(s))|]
  {
    var t := TrimStart(s);
    var r := TrimEnd(t);
    var i := |s| - |t|;
    InfixOfSuffix(s, t, i, |r|);
  }

  lemma InfixOfSuffix(s: string, t: string, i: int, n: int)
    requires 0 <= i <= |s| && t == s[i..] && 0 <= n <= |t|
    ensures t[..n] == s[i..i + n]
  {
  }

  lemma TrailingIsSpace(s: string)
    ensures var i := |s| - |TrimStart(s)|;
            forall k :: i + |TrimEnd(TrimStart(s))| <= k < |s| ==> IsSpace(s[k])
  {
    var t := TrimStart(s);
    var r := TrimEnd(t);
    var i := |s| - |t|;
    forall k | i + |r| <= k < |s| ensures IsSpace(s[k]) {
      assert s[k] == t[k - i];
    }
  }

  /** A string is trimmed to nothing exactly when it is all whitespace. */
  lemma {:induction false} TrimEmptyIffBlank(s: string)
    ensures Trim(s) == "" <==> forall k :: 0 <= k < |s| ==> IsSpace(s[k])
  {
    var r := Trim(s);
    var i :| StripsTo(s, r, i);
    if r != "" {
      assert r[0] == s[i];
    }
  }

  /** Trimming twice is trimming once. */
  lemma TrimIdempotent(s: string)
    ensures Trim(Trim(s)) == Trim(s)
  {
    var r := Trim(s);
    if r != [] {
      assert TrimStart(r) == r;
      assert TrimEnd(r) == r;
    }
  }

  /** A text whose ends are not whitespace is its own trim. */
  lemma TrimOfTrimmed(q: string)
    requires q == [] || (!IsSpace(q[0]) && !IsSpace(q[|q| - 1]))
    ensures Trim(q) == q
  {
    assert TrimStart(q) == q;
    assert TrimEnd(q) == q;
  }

  /** Trimming removes exactly the whitespace padding around a string with non-space ends. */
  lemma {:induction false} TrimPadded(pad1: string, q: string, pad2: string)
    requires forall k :: 0 <= k < |pad1| ==> IsSpace(pad1[k])
    requires forall k :: 0 <= k < |pad2| ==> IsSpace(pad2[k])
    requires q == [] || (!IsSpace(q[0]) && !IsSpace(q[|q| - 1]))
    ensures Trim(pad1 + q + pad2) == q
  {
    var s := pad1 + q + pad2;
    var r := Trim(s);
    var i :| StripsTo(s, r, i);
    TrimEmptyIffBlank(s);
    if q == [] {
      assert forall k :: 0 <= k < |s| ==> IsSpace(s[k]) by {
        forall k | 0 <= k < |s| ensures IsSpace(s[k]) {
          if k < |pad1| { assert s[k] == pad1[k]; } else { assert s[k] == pad2[k - |pad1|]; }
        }
      }
    } else {
      assert s[|pad1|] == q[0];
      assert s[|pad1| + |q| - 1] == q[|q| - 1];
      assert r != [];
      assert s[i] == r[0];
      assert s[i + |r| - 1] == r[|r| - 1];
      assert i == |pad1|;
      assert i + |r| == |pad1| + |q|;
      assert s[i..i + |r|] == q;
    }
  }

  /** `toLowerCase` on one character, for ASCII and the Latin-1 letters used by French. */
  function LowerChar(c: char): char {
    if 'A' <= c <= 'Z' || ('\U{00C0}' <= c <= '\U{00DE}' && c != '\U{00D7}')
    then (c as int + 32) as char
    else c
  }

  /** `String.prototype.toLowerCase`, character by character. */
  function Lower(s: string): (r: string)
    ensures |r| == |s|
    ensures forall i :: 0 <= i < |s| ==> r[i] == LowerChar(s[i])
  {
    seq(|s|, i requires 0 <= i < |s| => LowerChar(s[i]))
  }

  /** Lower-casing never turns a non-space character into whitespace. */
  lemma LowerCharKeepsNonSpace(c: char)
    ensures !IsSpace(c) ==> !IsSpace(LowerChar(c))
  {
  }

  /** Lower-casing twice is lower-casing once. */
  lemma LowerIdempotent(s: string)
    ensures Lower(Lower(s)) == Lower(s)
  {
  }

  lemma LowerAppend(a: string, b: string)
    ensures Lower(a + b) == Lower(a) + Lower(b)
  {
  }

  /** `sub` occurs in `s` starting at index `i`. */
  predicate OccursAt(s: string, sub: string, i: int) {
    0 <= i && i + |sub| <= |s| && s[i..i + |sub|] == sub
  }

  /** `String.prototype.includes`. */
  predicate Contains(s: string, sub: string) {
    exists i :: 0 <= i <= |s| && OccursAt(s, sub, i)
  }
}
