/** String operations the schemas and controllers rely on: the `trim` and
    `lowercase` setters of Mongoose, the JavaScript `toLowerCase`, the hex
    colour pattern of the validation schemas, and the binary string order the
    database sorts names by.
 */
module Text {

  /** White space as JavaScript's `String.prototype.trim` strips it. */
  predicate IsSpace(c: char) {
    var n := c as int;
    || 0x09 <= n <= 0x0D                    // tab, line feed, vertical tab, form feed, carriage return
    || n == 0x20 || n == 0xA0 || n == 0x1680
    || 0x2000 <= n <= 0x200A
    || n == 0x2028 || n == 0x2029 || n == 0x202F || n == 0x205F
    || n == 0x3000 || n == 0xFEFF
  }

  /** `s` without its leading white space. */
  function TrimStart(s: string): (r: string)
    ensures r == [] || !IsSpace(r[0])
    ensures |r| <= |s| && r == s[|s| - |r|..]
  {
    if s != [] && IsSpace(s[0]) then TrimStart(s[1..]) else s
  }

  /** `s` without its trailing white space. */
  function TrimEnd(s: string): (r: string)
    ensures r == [] || !IsSpace(r[|r| - 1])
    ensures |r| <= |s| && r == s[..|r|]
  {
    if s != [] && IsSpace(s[|s| - 1]) then TrimEnd(s[..|s| - 1]) else s
  }

  /** The string with no white space at either end. */
  predicate IsTrimmed(s: string) {
    s == [] || (!IsSpace(s[0]) && !IsSpace(s[|s| - 1]))
  }

  /** JavaScript's `trim`, which Mongoose applies to every `trim: true` field. */
  function Trim(s: string): (r: string)
    ensures IsTrimmed(r)
    ensures forall c :: c in r ==> c in s
  {
    var t := TrimEnd(TrimStart(s));
    assert t == [] || t[0] == TrimStart(s)[0];
    t
  }

  /** Everything `trimStart` drops is white space. */
  lemma {:induction false} TrimStartDropsSpace(s: string)
    ensures forall k :: 0 <= k < |s| - |TrimStart(s)| ==> IsSpace(s[k])
  {
    if s != [] && IsSpace(s[0]) {
      TrimStartDropsSpace(s[1..]);
      assert forall k :: 1 <= k < |s| - |TrimStart(s)| ==> s[k] == s[1..][k - 1];
    }
  }

  /** Everything `trimEnd` drops is white space. */
  lemma {:induction false} TrimEndDropsSpace(s: string)
    ensures forall k :: |TrimEnd(s)| <= k < |s| ==> IsSpace(s[k])
  {
    if s != [] && IsSpace(s[|s| - 1]) {
      TrimEndDropsSpace(s[..|s| - 1]);
      assert forall k :: |TrimEnd(s)| <= k < |s| - 1 ==> s[k] == s[..|s| - 1][k];
    }
  }

  /** `trim` removes white space at both ends and nothing else: the result
      is the slice of `s` between a prefix and a suffix of white space. */
  lemma TrimIsSlice(s: string)
    ensures exists i, j :: 0 <= i <= j <= |s| && Trim(s) == s[i..j]
                           && (forall k :: 0 <= k < i ==> IsSpace(s[k]))
                           && (forall k :: j <= k < |s| ==> IsSpace(s[k]))
  {
    var u := TrimStart(s);
    TrimStartDropsSpace(s);
    TrimEndDropsSpace(u);
    SpaceAround(s, u, TrimEnd(u));
  }

  /** A prefix `t` of a suffix `u` of `s` is a slice of `s`; white space
      cut from the end of `u` is white space at the end of `s`. */
  lemma SpaceAround(s: string, u: string, t: string)
    requires |u| <= |s| && u == s[|s| - |u|..]
    requires |t| <= |u| && t == u[..|t|]
    requires forall k :: |t| <= k < |u| ==> IsSpace(u[k])
    ensures var i := |s| - |u|;
            && t == s[i..i + |t|]
            && (t == [] || t[0] == u[0])
            && (forall k :: i + |t| <= k < |s| ==> IsSpace(s[k]))
  {
    var i := |s| - |u|;
    forall k | i + |t| <= k < |s| ensures IsSpace(s[k]) {
      assert s[k] == u[k - i];
    }
  }

  lemma {:induction false} TrimStartOfTrimmed(s: string)
    requires IsTrimmed(s)
    ensures TrimStart(s) == s
  {
  }

  lemma {:induction false} TrimEndOfTrimmed(s: string)
    requires IsTrimmed(s)
    ensures TrimEnd(s) == s
  {
  }

  /** Trimming leaves a trimmed string alone, so `trim` is idempotent. */
  lemma TrimFixesTrimmed(s: string)
    ensures IsTrimmed(s) <==> Trim(s) == s
    ensures Trim(Trim(s)) == Trim(s)
  {
    if IsTrimmed(s) {
      TrimStartOfTrimmed(s);
      TrimEndOfTrimmed(s);
    }
    TrimStartOfTrimmed(Trim(s));
    TrimEndOfTrimmed(Trim(s));
  }

  predicate IsUpper(c: char) {
    'A' <= c <= 'Z'
  }

  function LowerChar(c: char): (d: char)
    ensures !IsUpper(d)
    ensures !IsUpper(c) ==> d == c
    ensures IsSpace(c) <==> IsSpace(d)
  {
    if IsUpper(c) then (c as int + 32) as char else c
  }

  /** JavaScript's `toLowerCase`, restricted to the ASCII letters. */
  function Lower(s: string): (r: string)
    ensures |r| == |s|
    ensures forall i :: 0 <= i < |s| ==> r[i] == LowerChar(s[i])
  {
    if s == [] then [] else [LowerChar(s[0])] + Lower(s[1..])
  }

  /** No upper-case letter occurs in `s`. */
  predicate IsLowerCase(s: string) {
    forall c :: c in s ==> !IsUpper(c)
  }

  /** What the `trim` and `lowercase` setters of the Tag schema make of a name. */
  function Normalize(s: string): string {
    Trim(Lower(s))
  }

  /** A name the Tag schema's setters leave unchanged. */
  predicate IsNormalized(s: string) {
    IsLowerCase(s) && IsTrimmed(s)
  }

  lemma LowerOfLowerCase(s: string)
    requires IsLowerCase(s)
    ensures Lower(s) == s
  {
  }

  /** Normalizing yields a normalized name, and normalized names are exactly
      the ones normalizing leaves unchanged. */
  lemma NormalizeIsNormalized(s: string)
    ensures IsNormalized(Normalize(s))
    ensures IsNormalized(s) <==> Normalize(s) == s
  {
    if IsNormalized(s) {
      LowerOfLowerCase(s);
      TrimFixesTrimmed(s);
    }
  }

  /** The comparison `updateTag` makes before renaming: when the lower-cased
      new name equals the stored (normalized) name, normalizing the new name
      gives back the stored name. */
  lemma LowerEqualMeansSameName(name: string, stored: string)
    requires IsNormalized(stored)
    requires Lower(name) == stored
    ensures Normalize(name) == stored
  {
    TrimFixesTrimmed(stored);
  }

  /** A saved name with a leading space lower-cases to something other than
      the name, yet normalizes back to it. */
  lemma PaddedName(stored: string)
    requires IsNormalized(stored)
    ensures Lower(" " + stored) != stored
    ensures Normalize(" " + stored) == stored
  {
    var name := " " + stored;
    LowerOfLowerCase(stored);
    assert Lower(name) == name by {
      forall i | 0 <= i < |name| ensures Lower(name)[i] == name[i] {
        if i > 0 {
          assert name[i] == stored[i - 1] == Lower(stored)[i - 1];
        }
      }
    }
    assert name[1..] == stored;
    assert TrimStart(name) == TrimStart(stored);
    TrimStartOfTrimmed(stored);
    TrimEndOfTrimmed(stored);
  }

  predicate IsHexDigit(c: char) {
    ('0' <= c <= '9') || ('a' <= c <= 'f') || ('A' <= c <= 'F')
  }

  /** The validation schemas' colour pattern `^#[0-9A-F]{6}$`, case-insensitive. */
  predicate IsHexColor(s: string) {
    |s| == 7 && s[0] == '#' && forall i :: 1 <= i < 7 ==> IsHexDigit(s[i])
  }

  /** The order the database sorts strings by: lexicographic on characters. */
  predicate StrLe(a: string, b: string) {
    a == [] || (b != [] && (a[0] < b[0] || (a[0] == b[0] && StrLe(a[1..], b[1..]))))
  }

  lemma {:induction false} StrLeTotal(a: string, b: string)
    ensures StrLe(a, b) || StrLe(b, a)
  {
    if a != [] && b != [] && a[0] == b[0] {
      StrLeTotal(a[1..], b[1..]);
    }
  }

  lemma {:induction false} StrLeTransitive(a: string, b: string, c: string)
    requires StrLe(a, b) && StrLe(b, c)
    ensures StrLe(a, c)
  {
    if a != [] && b != [] && c != [] && a[0] == b[0] && b[0] == c[0] {
      StrLeTransitive(a[1..], b[1..], c[1..]);
    }
  }

  lemma {:induction false} StrLeAntisymmetric(a: string, b: string)
    requires StrLe(a, b) && StrLe(b, a)
    ensures a == b
  {
    if a != [] && b != [] {
      StrLeAntisymmetric(a[1..], b[1..]);
      assert a == [a[0]] + a[1..];
      assert b == [b[0]] + b[1..];
    }
  }
}
