/** Input bytes as the parser sees them. `Buffer.values()` yields numbers in
    0..255 and each one becomes exactly one UTF-16 code unit through
    `String.fromCharCode`, so a field is a sequence of byte values. */
module Bytes {

  type byte = b: int | 0 <= b < 0x100

  const COMMA: byte := 0x2C
  const CR: byte := 0x0D
  const LF: byte := 0x0A
  const QUOTE: byte := 0x22

  /** Number of occurrences of `b` in `s`. */
  function Count(s: seq<byte>, b: byte): (n: nat)
    ensures n <= |s|
    ensures n == 0 <==> b !in s
  {
    if |s| == 0 then 0 else (if s[0] == b then 1 else 0) + Count(s[1..], b)
  }

  /** The code units in 0..255 that `String.prototype.trim` removes: the
      ECMAScript WhiteSpace and LineTerminator characters of that range
      (TAB, LF, VT, FF, CR, SPACE and NO-BREAK SPACE). */
  predicate IsTrimmable(b: byte) {
    (0x09 <= b <= 0x0D) || b == 0x20 || b == 0xA0
  }

  predicate AllTrimmable(s: seq<byte>) {
    forall k :: 0 <= k < |s| ==> IsTrimmable(s[k])
  }

  /** A field with no trimmable byte at either end. */
  predicate Trimmed(s: seq<byte>) {
    s == [] || (!IsTrimmable(s[0]) && !IsTrimmable(s[|s| - 1]))
  }

  /** Length of the longest all-trimmable prefix. */
  function LeadingCount(s: seq<byte>): (n: nat)
    ensures n <= |s|
    ensures AllTrimmable(s[..n])
    ensures n < |s| ==> !IsTrimmable(s[n])
  {
    if |s| == 0 || !IsTrimmable(s[0]) then 0
    else
      var m := LeadingCount(s[1..]);
      assert s[..m + 1] == [s[0]] + s[1..][..m];
      1 + m
  }

  /** Start of the longest all-trimmable suffix. */
  function TrailingStart(s: seq<byte>): (n: nat)
    ensures n <= |s|
    ensures AllTrimmable(s[n..])
    ensures 0 < n ==> !IsTrimmable(s[n - 1])
  {
    if |s| == 0 || !IsTrimmable(s[|s| - 1]) then |s|
    else
      var m := TrailingStart(s[..|s| - 1]);
      assert s[m..] == s[..|s| - 1][m..] + [s[|s| - 1]];
      m
  }

  /** `String.prototype.trim` on a byte string: every trimmable byte is
      removed from both ends (`TrimSlice` says the rest is kept). */
  function Trim(s: seq<byte>): (r: seq<byte>)
    ensures |r| <= |s|
    ensures Trimmed(r)
  {
    var i := LeadingCount(s);
    var rest := s[i..];
    rest[..TrailingStart(rest)]
  }

  /** What `Trim` removes is trimmable and what it keeps is one slice of `s`. */
  lemma TrimSlice(s: seq<byte>)
    ensures exists i, j :: 0 <= i <= j <= |s| && Trim(s) == s[i..j] && AllTrimmable(s[..i]) && AllTrimmable(s[j..])
  {
    var i := LeadingCount(s);
    var rest := s[i..];
    var j := TrailingStart(rest);
    assert rest[..j] == s[i..i + j];
    assert s[i + j..] == rest[j..];
  }

  lemma LeadingCountIs(s: seq<byte>, i: nat)
    requires i <= |s| && AllTrimmable(s[..i])
    requires i < |s| ==> !IsTrimmable(s[i])
    ensures LeadingCount(s) == i
  {
    if 0 < i {
      assert s[..i][0] == s[0];
      assert s[1..][..i - 1] == s[1..i];
      assert forall k :: 0 <= k < i - 1 ==> s[1..i][k] == s[..i][k + 1];
      LeadingCountIs(s[1..], i - 1);
    }
  }

  lemma TrailingStartIs(s: seq<byte>, j: nat)
    requires j <= |s| && AllTrimmable(s[j..])
    requires 0 < j ==> !IsTrimmable(s[j - 1])
    ensures TrailingStart(s) == j
  {
  }

  /** A slice with all-trimmable surroundings and no trimmable byte at its own
      ends is exactly what `Trim` returns: `Trim`'s contract pins its result
      down. */
  lemma TrimUnique(s: seq<byte>, i: nat, j: nat)
    requires i <= j <= |s|
    requires AllTrimmable(s[..i]) && AllTrimmable(s[j..])
    requires Trimmed(s[i..j])
    ensures Trim(s) == s[i..j]
  {
    if i < j {
      assert s[i..j][0] == s[i] && s[i..j][j - i - 1] == s[j - 1];
      LeadingCountIs(s, i);
      assert s[i..][j - i..] == s[j..];
      TrailingStartIs(s[i..], j - i);
      assert s[i..][..j - i] == s[i..j];
    } else {
      assert AllTrimmable(s) by {
        forall k | 0 <= k < |s| ensures IsTrimmable(s[k]) {
          if k < i { assert s[..i][k] == s[k]; } else { assert s[j..][k - j] == s[k]; }
        }
      }
      assert s[..|s|] == s;
      LeadingCountIs(s, |s|);
    }
  }

  /** Trimming is idempotent, and leaves a trimmed field unchanged. */
  lemma TrimTrimmed(s: seq<byte>)
    requires Trimmed(s)
    ensures Trim(s) == s
  {
    assert s[..0] == [] && s[|s|..] == [];
    TrimUnique(s, 0, |s|);
    assert s[0..|s|] == s;
  }
}
