/**
 * Character-level helpers the viewer and the converter rely on: the
 * ECMAScript white-space set used by `String.prototype.trim` and `parseInt`,
 * the lower-case map used by `toLowerCase`, and substring containment as
 * decided by `String.prototype.includes`.
 */
module Text {

  /** WhiteSpace and LineTerminator code points of ECMA-262 (sections 12.2 and 12.3). */
  predicate IsWhiteSpace(c: char) {
    || c == '\t' || c == '\U{000B}' || c == '\U{000C}' || c == ' ' || c == '\U{00A0}' || c == '\U{FEFF}'
    || c == '\U{1680}' || ('\U{2000}' <= c <= '\U{200A}') || c == '\U{202F}' || c == '\U{205F}' || c == '\U{3000}'
    || c == '\n' || c == '\r' || c == '\U{2028}' || c == '\U{2029}'
  }

  /** Removes the longest white-space prefix. */
  function TrimStart(s: string): (r: string)
    ensures |r| <= |s| && r == s[|s| - |r|..]
    ensures forall i :: 0 <= i < |s| - |r| ==> IsWhiteSpace(s[i])
    ensures |r| > 0 ==> !IsWhiteSpace(r[0])
  {
    if |s| > 0 && IsWhiteSpace(s[0]) then TrimStart(s[1..]) else s
  }

  /** Text that does not start with white space is left alone. */
  lemma TrimStartNoWhiteSpace(s: string)
    requires |s| > 0 ==> !IsWhiteSpace(s[0])
    ensures TrimStart(s) == s
  {
  }

  /** Removes the longest white-space suffix. */
  function TrimEnd(s: string): (r: string)
    ensures |r| <= |s| && r == s[..|r|]
    ensures forall i :: |r| <= i < |s| ==> IsWhiteSpace(s[i])
    ensures |r| > 0 ==> !IsWhiteSpace(r[|r| - 1])
  {
    if |s| > 0 && IsWhiteSpace(s[|s| - 1]) then TrimEnd(s[..|s| - 1]) else s
  }

  /** `String.prototype.trim`: white space removed from both ends. */
  function Trim(s: string): (r: string)
    ensures |r| <= |s|
    ensures |r| > 0 ==> !IsWhiteSpace(r[0]) && !IsWhiteSpace(r[|r| - 1])
  {
    var t := TrimStart(s);
    var r := TrimEnd(t);
    assert |r| > 0 ==> r[0] == t[0];
    r
  }

  /** The trimmed text is a slice of the input with only white space cut away on either side. */
  lemma TrimIsSlice(s: string)
    ensures exists a, b :: 0 <= a <= b <= |s| && Trim(s) == s[a..b]
                           && (forall i :: 0 <= i < a ==> IsWhiteSpace(s[i]))
                           && (forall i :: b <= i < |s| ==> IsWhiteSpace(s[i]))
  {
    var t := TrimStart(s);
    var u := TrimEnd(t);
    var a := |s| - |t|;
    var b := a + |u|;
    assert Trim(s) == s[a..b] by {
      assert t == s[a..];
      assert u == t[..|u|];
    }
    assert forall i :: b <= i < |s| ==> IsWhiteSpace(s[i]) by {
      forall i | b <= i < |s| ensures IsWhiteSpace(s[i]) {
        assert s[i] == t[i - a];
      }
    }
  }

  /** Input counts as empty exactly when every character is white space. */
  lemma TrimEmptyIffBlank(s: string)
    ensures |Trim(s)| == 0 <==> forall i :: 0 <= i < |s| ==> IsWhiteSpace(s[i])
  {
    var t := TrimStart(s);
    if |Trim(s)| == 0 {
      // TrimEnd removed all of t, yet t cannot start with white space
      assert |t| == 0;
    }
  }

  /** Lower-casing of one character: the ASCII capitals map to their small letters. */
  function LowerChar(c: char): (d: char)
    ensures IsUpper(c) ==> !IsUpper(d) && d as int == c as int + 32
    ensures !IsUpper(c) ==> d == c
  {
    if IsUpper(c) then (c as int + 32) as char else c
  }

  predicate IsUpper(c: char) {
    'A' <= c <= 'Z'
  }

  /** `String.prototype.toLowerCase`, character by character. */
  function Lower(s: string): (r: string)
    ensures |r| == |s|
    ensures forall i :: 0 <= i < |s| ==> r[i] == LowerChar(s[i])
  {
    seq(|s|, i requires 0 <= i < |s| => LowerChar(s[i]))
  }

  /** `term` occurs in `text` starting at index `i`. */
  predicate OccursAt(text: string, term: string, i: int) {
    0 <= i && i + |term| <= |text| && text[i..i + |term|] == term
  }

  /** `text.includes(term)`: some index starts an occurrence. */
  predicate Contains(text: string, term: string) {
    exists i | 0 <= i <= |text| - |term| :: OccursAt(text, term, i)
  }

  /** The scan behind `String.prototype.includes`: try every start position in turn. */
  method Includes(text: string, term: string) returns (found: bool)
    ensures found <==> Contains(text, term)
  {
    if |term| > |text| {
      return false;
    }
    var i := 0;
    while i <= |text| - |term|
      invariant 0 <= i <= |text| - |term| + 1
      invariant forall j :: 0 <= j < i ==> !OccursAt(text, term, j)
    {
      if text[i..i + |term|] == term {
        assert OccursAt(text, term, i);
        return true;
      }
      i := i + 1;
    }
    return false;
  }
}
