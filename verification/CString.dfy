// Bytes and the C-string helpers that the user programs share
// (syscalls/ece391support.c).  A read-only string argument is given by its
// content, a byte sequence without NUL; the terminator follows implicitly.
// A string inside a buffer is an array together with an offset.
module CString {
  type byte = b: int | 0 <= b < 256

  const NUL: byte := 0
  const BACKSPACE: byte := 8
  const NEWLINE: byte := 10
  const RETURN: byte := 13
  const SPACE: byte := 32

  ghost predicate Without(s: seq<byte>, b: byte) {
    forall k :: 0 <= k < |s| ==> s[k] != b
  }

  // The first position of b in s, or |s| when there is none.
  function IndexOf(s: seq<byte>, b: byte): (k: nat)
    ensures k <= |s|
    ensures k < |s| ==> s[k] == b
    ensures forall j :: 0 <= j < k ==> s[j] != b
  {
    if s == [] || s[0] == b then 0 else 1 + IndexOf(s[1..], b)
  }

  // The C string that starts a buffer: everything before the first NUL.
  function CStr(s: seq<byte>): seq<byte> {
    s[..IndexOf(s, NUL)]
  }

  lemma StringAtFront(s: seq<byte>, text: seq<byte>)
    requires |text| < |s| && s[..|text|] == text && s[|text|] == NUL && Without(text, NUL)
    ensures CStr(s) == text
  {
    assert forall k {:trigger s[k]} :: 0 <= k < |text| ==> s[k] == text[k];
  }

  // Memory after writing c at position at.
  ghost function Splice(s: seq<byte>, at: nat, c: seq<byte>): seq<byte>
    requires at + |c| <= |s|
  {
    s[..at] + c + s[at + |c|..]
  }

  lemma IsSplice(before: seq<byte>, at: nat, c: seq<byte>, after: seq<byte>)
    requires at + |c| <= |before| == |after|
    requires forall k {:trigger after[k]} :: at <= k < at + |c| ==> after[k] == c[k - at]
    requires forall k {:trigger after[k]} :: 0 <= k < at || at + |c| <= k < |after| ==> after[k] == before[k]
    ensures after == Splice(before, at, c)
  {
  }

  method Strlen(a: array<byte>, at: nat, ghost end: nat) returns (len: nat)
    requires at <= end < a.Length && a[end] == NUL && forall k :: at <= k < end ==> a[k] != NUL
    ensures len == end - at
  {
    len := 0;
    while a[at + len] != NUL
      invariant at + len <= end
      decreases end - at - len
    {
      len := len + 1;
    }
  }

  // Copies the string at a[src..end] down inside one buffer, with its terminator.
  method Strcpy(a: array<byte>, dst: nat, src: nat, ghost end: nat)
    requires dst <= src <= end < a.Length
    requires a[end] == NUL && forall k :: src <= k < end ==> a[k] != NUL
    modifies a
    ensures forall k {:trigger a[k]} :: dst <= k <= dst + (end - src) ==> a[k] == old(a[k + (src - dst)])
    ensures forall k {:trigger a[k]} :: 0 <= k < dst || dst + (end - src) < k < a.Length ==> a[k] == old(a[k])
  {
    ghost var m, shift: nat := a[..], src - dst;
    var d, s := dst, src;
    a[d] := a[s];
    while a[d] != NUL
      invariant src <= s <= end && s == d + shift && a[d] == m[s]
      invariant forall k {:trigger a[k]} :: dst <= k < d ==> a[k] == m[k + shift]
      invariant forall k {:trigger a[k]} :: 0 <= k < dst || d < k < a.Length ==> a[k] == m[k]
      decreases end - s
    {
      d, s := d + 1, s + 1;
      a[d] := a[s];
    }
  }

  // ece391_strncmp of the string at a[at..] with the first n bytes of s: it
  // answers 0 exactly when those n bytes are a prefix.
  method Strncmp(a: array<byte>, at: nat, s: seq<byte>, n: nat, ghost end: nat) returns (r: int)
    requires at <= end < a.Length && a[end] == NUL
    requires n <= |s| && Without(s, NUL)
    ensures r == 0 <==> at + n <= end && a[at..at + n] == s[..n]
  {
    if n == 0 { return 0; }
    var i, m := 0, n;
    while a[at + i] == s[i]
      invariant 0 <= i < n && m == n - i && at + i <= end
      invariant a[at..at + i] == s[..i]
      decreases n - i
    {
      m := m - 1;
      if m == 0 {
        assert a[at..at + n] == s[..n];
        return 0;
      }
      i := i + 1;
    }
    r := a[at + i] as int - s[i] as int;
    assert at + n <= end ==> a[at..at + n][i] == a[at + i];
  }
}
