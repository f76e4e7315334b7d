/**
 * The C library string routines the program relies on (strlen, strchr,
 * strcat), over character memory holding a NUL-terminated string.
 */
module CString {
  import opened Wrappers

  /** Memory that holds a C string: some NUL ends it. */
  predicate Terminated(s: seq<char>) {
    '\0' in s
  }

  /** Text that can be part of a C string: no NUL inside. */
  predicate NulFree(t: seq<char>) {
    forall i :: 0 <= i < |t| ==> t[i] != '\0'
  }

  /** strlen: the index of the first NUL. */
  function StrLen(s: seq<char>): (n: nat)
    requires Terminated(s)
    ensures n < |s| && s[n] == '\0'
    ensures NulFree(s[..n])
  {
    if s[0] == '\0' then 0
    else
      assert s == [s[0]] + s[1..];
      1 + StrLen(s[1..])
  }

  /** The characters of the C string held in `s`, without its terminator. */
  function Str(s: seq<char>): (t: seq<char>)
    requires Terminated(s)
    ensures |t| == StrLen(s) && t == s[..|t|] && NulFree(t)
  {
    s[..StrLen(s)]
  }

  /** strlen is determined by where the first NUL stands. */
  lemma StrLenAt(s: seq<char>, n: nat)
    requires n < |s| && s[n] == '\0' && NulFree(s[..n])
    ensures Terminated(s) && StrLen(s) == n
  {
    assert s[n] in s;
  }

  /** strchr: the index of the first `c` in the C string held in `s`, or None. */
  function StrChr(s: seq<char>, c: char): (r: Option<nat>)
    requires Terminated(s) && c != '\0'
    ensures r.Some? ==> r.value < StrLen(s) && s[r.value] == c
    ensures r.Some? ==> forall i :: 0 <= i < r.value ==> s[i] != c
    ensures r.None? ==> forall i :: 0 <= i < StrLen(s) ==> s[i] != c
  {
    if s[0] == '\0' then None
    else if s[0] == c then Some(0)
    else
      assert s == [s[0]] + s[1..];
      match StrChr(s[1..], c)
      case None => None
      case Some(k) => Some(k + 1)
  }

  /** The memory `dst` with the text `t` and a NUL written at index n. */
  function Spliced(dst: seq<char>, n: nat, t: seq<char>): seq<char>
    requires n + |t| < |dst|
  {
    seq(|dst|, i requires 0 <= i < |dst| =>
      if i < n then dst[i]
      else if i < n + |t| then t[i - n]
      else if i == n + |t| then '\0'
      else dst[i])
  }

  /**
   * The memory after strcat writes the text `t` over the terminator of the
   * string in `dst` and terminates the result.
   */
  function Append(dst: seq<char>, t: seq<char>): (r: seq<char>)
    requires Terminated(dst) && NulFree(t) && StrLen(dst) + |t| < |dst|
    ensures |r| == |dst| && Terminated(r) && Str(r) == Str(dst) + t
  {
    var n := StrLen(dst);
    var r := Spliced(dst, n, t);
    assert r[..n + |t|] == Str(dst) + t;
    StrLenAt(r, n + |t|);
    r
  }

  /** What `Append` leaves at each index. */
  lemma AppendAt(dst: seq<char>, t: seq<char>, i: nat)
    requires Terminated(dst) && NulFree(t) && StrLen(dst) + |t| < |dst|
    requires i < |dst|
    ensures Append(dst, t)[i] ==
      if i < StrLen(dst) then dst[i]
      else if i < StrLen(dst) + |t| then t[i - StrLen(dst)]
      else if i == StrLen(dst) + |t| then '\0'
      else dst[i]
  {
    assert Append(dst, t) == Spliced(dst, StrLen(dst), t);
  }

  /** A concatenation is NUL-free exactly when both parts are. */
  lemma NulFreeConcat(x: seq<char>, y: seq<char>)
    ensures NulFree(x + y) <==> NulFree(x) && NulFree(y)
  {
    if NulFree(x + y) {
      forall i | 0 <= i < |x| ensures x[i] != '\0' { assert x[i] == (x + y)[i]; }
      forall i | 0 <= i < |y| ensures y[i] != '\0' { assert y[i] == (x + y)[|x| + i]; }
    }
    if NulFree(x) && NulFree(y) {
      forall i | 0 <= i < |x + y| ensures (x + y)[i] != '\0' {
        if i >= |x| {
          assert (x + y)[i] == y[i - |x|];
        }
      }
    }
  }

  /** Appending twice is appending the concatenation once. */
  lemma AppendTwice(dst: seq<char>, x: seq<char>, y: seq<char>)
    requires Terminated(dst) && NulFree(x) && NulFree(y)
    requires StrLen(dst) + |x| + |y| < |dst|
    ensures NulFree(x + y)
    ensures StrLen(Append(dst, x)) + |y| < |dst|
    ensures Append(Append(dst, x), y) == Append(dst, x + y)
  {
    NulFreeConcat(x, y);
    var n := StrLen(dst);
    var d1 := Append(dst, x);
    assert StrLen(d1) == n + |x|;
    var a, b := Append(d1, y), Append(dst, x + y);
    assert |a| == |b| == |dst|;
    forall i | 0 <= i < |dst|
      ensures a[i] == b[i]
    {
      AppendAt(d1, y, i);
      AppendAt(dst, x + y, i);
      AppendAt(dst, x, i);
      if n <= i < n + |x| {
        assert (x + y)[i - n] == x[i - n];
      } else if n + |x| <= i < n + |x| + |y| {
        assert (x + y)[i - n] == y[i - n - |x|];
      }
    }
  }

  /** strcat(dst, src) on two distinct buffers. */
  method StrCat(dst: array<char>, src: array<char>)
    requires dst != src
    requires Terminated(dst[..]) && Terminated(src[..])
    requires StrLen(dst[..]) + StrLen(src[..]) < dst.Length
    modifies dst
    ensures dst[..] == Append(old(dst[..]), Str(src[..]))
  {
    ghost var d0, s0 := dst[..], src[..];
    var n, m := StrLen(dst[..]), StrLen(src[..]);
    forall i | n <= i <= n + m {
      dst[i] := if i < n + m then src[i - n] else '\0';
    }
    assert src[..] == s0;
    forall i | 0 <= i < dst.Length
      ensures dst[..][i] == Append(d0, Str(s0))[i]
    {
      AppendAt(d0, Str(s0), i);
    }
  }
}
