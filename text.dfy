/**
 * The string and byte primitives the module leans on: `indexOf`, Kotlin's and
 * Apache Commons' two different `substringAfter`, lower-casing, and the UTF-8
 * encoding performed by `String.toByteArray()`.
 */
module Text {

  newtype byte = b: int | 0 <= b < 256

  datatype Option<T> = None | Some(value: T) {
    function GetOr(default: T): T {
      match this
      case Some(v) => v
      case None => default
    }
  }

  /** `d` occurs in `s` at index `i`. */
  predicate OccursAt(s: string, d: string, i: int) {
    0 <= i && i + |d| <= |s| && s[i..i + |d|] == d
  }

  /** A one-character delimiter occurs exactly where that character stands. */
  lemma OccursAtChar(s: string, c: char, i: int)
    ensures OccursAt(s, [c], i) <==> 0 <= i < |s| && s[i] == c
  {
    if 0 <= i < |s| {
      assert s[i..i + 1] == [s[i]];
    }
  }

  /** `String.indexOf(d, from)`: the first occurrence of `d` at or after `from`. */
  function IndexOfFrom(s: string, d: string, from: nat): (r: Option<nat>)
    ensures r.Some? ==> from <= r.value && OccursAt(s, d, r.value)
    ensures r.Some? ==> forall j :: from <= j < r.value ==> !OccursAt(s, d, j)
    ensures r.None? ==> forall j :: from <= j ==> !OccursAt(s, d, j)
    decreases |s| - from
  {
    if from + |d| > |s| then None
    else if s[from..from + |d|] == d then Some(from)
    else IndexOfFrom(s, d, from + 1)
  }

  /** `String.indexOf(d)`: the first occurrence of `d` in `s`, if any. */
  function IndexOf(s: string, d: string): (r: Option<nat>)
    ensures r.Some? ==> OccursAt(s, d, r.value) && forall j :: 0 <= j < r.value ==> !OccursAt(s, d, j)
    ensures r.None? <==> forall j :: !OccursAt(s, d, j)
  {
    IndexOfFrom(s, d, 0)
  }

  /** An occurrence with none before it is the one `IndexOf` finds. */
  lemma IndexOfFirst(s: string, d: string, k: nat)
    requires OccursAt(s, d, k)
    requires forall j :: 0 <= j < k ==> !OccursAt(s, d, j)
    ensures IndexOf(s, d) == Some(k)
  {
  }

  /**
   * Kotlin's `String.substringAfter(delimiter)`: the text after the first
   * occurrence of `d`, or the whole receiver when `d` does not occur.
   */
  function SubstringAfter(s: string, d: string): (r: string)
    ensures |r| <= |s| && r == s[|s| - |r|..]
    ensures (forall j :: !OccursAt(s, d, j)) ==> r == s
  {
    match IndexOf(s, d)
    case None => s
    case Some(k) => s[k + |d|..]
  }

  /**
   * Apache Commons `StringUtils.substringAfter(str, separator)`: the text after
   * the first occurrence of `d`, or the empty string when `d` does not occur.
   */
  function SubstringAfterOrEmpty(s: string, d: string): (r: string)
    ensures |r| <= |s| && r == s[|s| - |r|..]
    ensures (forall j :: !OccursAt(s, d, j)) ==> r == ""
  {
    if |s| == 0 then s
    else
      match IndexOf(s, d)
      case None => ""
      case Some(k) => s[k + |d|..]
  }

  /** Both `substringAfter`s agree when the delimiter is found at `k` first. */
  lemma SubstringAfterFound(s: string, d: string, k: nat)
    requires OccursAt(s, d, k)
    requires forall j :: 0 <= j < k ==> !OccursAt(s, d, j)
    ensures SubstringAfter(s, d) == s[k + |d|..]
    ensures SubstringAfterOrEmpty(s, d) == s[k + |d|..]
  {
    IndexOfFirst(s, d, k);
  }

  function LowerChar(c: char): char {
    if 'A' <= c <= 'Z' then (c as int + 32) as char else c
  }

  /** `toLowerCase()` on the ASCII range: letters map to lower case, all else stays. */
  function ToLower(s: string): (r: string)
    ensures |r| == |s|
    ensures forall i :: 0 <= i < |s| ==> r[i] == LowerChar(s[i])
  {
    if s == [] then [] else [LowerChar(s[0])] + ToLower(s[1..])
  }

  /** Lower-casing neither creates nor removes a character that is not a letter. */
  lemma ToLowerKeepsNonLetter(s: string, c: char)
    requires !('A' <= c <= 'Z') && !('a' <= c <= 'z')
    ensures c in ToLower(s) <==> c in s
  {
    var r := ToLower(s);
    if c in s {
      var i :| 0 <= i < |s| && s[i] == c;
      assert r[i] == c;
    }
    if c in r {
      var i :| 0 <= i < |r| && r[i] == c;
      assert s[i] == c;
    }
  }

  /**
   * Concatenation regrouped. Stated once so that proofs over large contexts
   * can cite it instead of rediscovering it element by element.
   */
  lemma ConcatAssoc<T>(a: seq<T>, b: seq<T>, c: seq<T>)
    ensures a + b + c == a + (b + c)
  {
  }

  /** The UTF-8 encoding of one Unicode scalar value. */
  function Utf8Char(c: char): (r: seq<byte>)
    ensures 1 <= |r| <= 4
    ensures |r| == 1 <==> c as int < 0x80
    ensures |r| == 1 ==> r[0] as int == c as int
    ensures |r| > 1 ==> 0xC0 <= r[0] && forall i :: 1 <= i < |r| ==> 0x80 <= r[i] < 0xC0
  {
    var n := c as int;
    if n < 0x80 then
      [n as byte]
    else if n < 0x800 then
      [(0xC0 + n / 0x40) as byte, (0x80 + n % 0x40) as byte]
    else if n < 0x10000 then
      [(0xE0 + n / 0x1000) as byte, (0x80 + n / 0x40 % 0x40) as byte, (0x80 + n % 0x40) as byte]
    else
      [(0xF0 + n / 0x40000) as byte, (0x80 + n / 0x1000 % 0x40) as byte,
       (0x80 + n / 0x40 % 0x40) as byte, (0x80 + n % 0x40) as byte]
  }

  /** `String.toByteArray()` with the UTF-8 charset. */
  function Utf8(s: string): (r: seq<byte>)
    ensures |s| <= |r| <= 4 * |s|
  {
    if s == [] then [] else Utf8Char(s[0]) + Utf8(s[1..])
  }

  /** Encoding distributes over concatenation. */
  lemma {:induction false} Utf8Concat(a: string, b: string)
    ensures Utf8(a + b) == Utf8(a) + Utf8(b)
  {
    if a == [] {
      assert a + b == b;
    } else {
      assert (a + b)[1..] == a[1..] + b;
      Utf8Concat(a[1..], b);
    }
  }

  predicate IsAscii(s: string) {
    forall i :: 0 <= i < |s| ==> s[i] as int < 0x80
  }

  /** An ASCII string encodes to one byte per character, each its code. */
  lemma {:induction false} Utf8Ascii(s: string)
    requires IsAscii(s)
    ensures |Utf8(s)| == |s|
    ensures forall i :: 0 <= i < |s| ==> Utf8(s)[i] as int == s[i] as int
  {
    if s != [] {
      assert IsAscii(s[1..]) by {
        forall i | 0 <= i < |s| - 1 ensures s[1..][i] as int < 0x80 {
          assert s[1..][i] == s[i + 1];
        }
      }
      Utf8Ascii(s[1..]);
    }
  }
}
