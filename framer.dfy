/**
 * The framing scan of main (main.cpp:215-235), lifted into a method: find
 * the first '{', then walk back from the end of the response string,
 * clearing every character until a '}' (or index 0) is reached, and flag a
 * window that cannot hold a JSON object.
 */
module Framer {
  import opened Wrappers
  import opened CString

  /**
   * The index the backward scan stops at when it starts from `hi`: the
   * largest i in [1, hi] with s[i] == '}', or 0 when there is none. Index 0
   * is never inspected.
   */
  function LastCloseBrace(s: seq<char>, hi: nat): (i: nat)
    requires hi < |s|
    ensures i <= hi && (i > 0 ==> s[i] == '}')
    ensures forall j :: i < j <= hi ==> s[j] != '}'
  {
    if hi == 0 then 0
    else if s[hi] == '}' then hi
    else LastCloseBrace(s, hi - 1)
  }

  /** The scan's stopping point is the only index with those properties. */
  lemma LastCloseBraceUnique(s: seq<char>, hi: nat, i: nat)
    requires i <= hi < |s| && (i > 0 ==> s[i] == '}')
    requires forall j :: i < j <= hi ==> s[j] != '}'
    ensures LastCloseBrace(s, hi) == i
  {
  }

  /** The memory `s` with the characters at (size, len] replaced by NUL. */
  function Cleared(s: seq<char>, size: nat, len: nat): seq<char>
    requires size <= len < |s|
  {
    seq(|s|, i requires 0 <= i < |s| => if size < i <= len then '\0' else s[i])
  }

  /**
   * What the scan yields: the index of the first '{' (strchr), the index it
   * stops at, whether the window is invalid, and the response memory after
   * it.
   */
  datatype Frame = Frame(start: Option<nat>, size: nat, invalid: bool, buffer: seq<char>)

  /**
   * The scan on a response holding a C string. The window is invalid when
   * the scan reached index 0, or stopped before the first '{'. When there is
   * no '{', strchr gives a null pointer, and the pointer comparison of
   * main.cpp:233 is taken as a comparison of flat addresses, which is false.
   */
  function FrameSpec(s: seq<char>): (f: Frame)
    requires Terminated(s)
    ensures |f.buffer| == |s| && f.buffer[StrLen(s)] == '\0' && f.size <= StrLen(s)
    ensures f.start.Some? ==> f.start.value < StrLen(s) && s[f.start.value] == '{'
  {
    var len := StrLen(s);
    var start := StrChr(s, '{');
    var size := LastCloseBrace(s, len);
    Frame(start, size, size == 0 || (start.Some? && size < start.value), Cleared(s, size, len))
  }

  /** The framing scan, in place on the response buffer. */
  method FrameJson(response: array<char>) returns (start: Option<nat>, size: nat, invalid: bool)
    requires Terminated(response[..])
    modifies response
    ensures Frame(start, size, invalid, response[..]) == FrameSpec(old(response[..]))
    ensures var len := StrLen(old(response[..]));
      size < len || size == len == 0
    ensures var len := StrLen(old(response[..]));
      forall i :: 0 <= i < response.Length ==>
        response[i] == if size < i <= len then '\0' else old(response[i])
  {
    start := StrChr(response[..], '{');
    var len := StrLen(response[..]);
    size := len;
    while size > 0
      invariant size <= len
      invariant forall i :: 0 <= i < response.Length ==>
        response[i] == if size < i <= len then '\0' else old(response[i])
      invariant forall j :: size < j <= len ==> old(response[j]) != '}'
      decreases size
    {
      if response[size] == '}' {
        break;
      }
      response[size] := '\0';
      size := size - 1;
    }
    LastCloseBraceUnique(old(response[..]), len, size);
    invalid := size == 0 || (start.Some? && size < start.value);
    assert response[..] == Cleared(old(response[..]), size, len);
  }

  /**
   * Running the scan again on the buffer it leaves stops at the same index
   * and changes nothing more.
   */
  lemma FrameIdempotent(s: seq<char>)
    requires Terminated(s)
    ensures var f := FrameSpec(s);
      Terminated(f.buffer) && FrameSpec(f.buffer).size == f.size && FrameSpec(f.buffer).buffer == f.buffer
  {
    var len := StrLen(s);
    var f := FrameSpec(s);
    var b := f.buffer;
    var size := f.size;
    if len == 0 {
      assert b == s;
    } else if size == 0 {
      assert b[1] == '\0' && b[0] == s[0] != '\0';
      assert NulFree(b[..1]);
      StrLenAt(b, 1);
      LastCloseBraceUnique(b, 1, 0);
      assert Cleared(b, 0, 1) == b;
    } else {
      assert size < len;
      var p := b[..size + 1];
      assert NulFree(p) by {
        forall j | 0 <= j < |p| ensures p[j] != '\0' {
          assert p[j] == s[..len][j];
        }
      }
      StrLenAt(b, size + 1);
      LastCloseBraceUnique(b, size + 1, size);
      assert Cleared(b, size, size + 1) == b;
    }
  }

  /**
   * The window is invalid exactly when no '}' stands in [1, strlen) at or
   * after the first '{' (at any index, when there is no '{').
   */
  lemma FrameInvalidIff(s: seq<char>)
    requires Terminated(s)
    ensures var f := FrameSpec(s);
      f.invalid <==>
        forall j :: 0 < j < StrLen(s) && (f.start.None? || f.start.value <= j) ==> s[j] != '}'
  {
    var f := FrameSpec(s);
    var len := StrLen(s);
    if !f.invalid {
      assert 0 < f.size < len && s[f.size] == '}';
    }
  }

  /** Clearing (z, len] of a string of length len leaves s[a..z+1] as the string at a. */
  lemma ClearedWindow(s: seq<char>, a: nat, z: nat, len: nat)
    requires a <= z < len < |s| && NulFree(s[..len])
    ensures Terminated(Cleared(s, z, len)[a..]) && Str(Cleared(s, z, len)[a..]) == s[a..z + 1]
  {
    var w := Cleared(s, z, len)[a..];
    var n := z + 1 - a;
    assert w[n] == '\0';
    var p := w[..n];
    assert p == s[a..z + 1] by {
      forall j | 0 <= j < n ensures p[j] == s[a + j] {
        assert p[j] == Cleared(s, z, len)[a + j];
      }
    }
    assert NulFree(p) by {
      forall j | 0 <= j < n ensures p[j] != '\0' {
        assert p[j] == s[..len][a + j];
      }
    }
    StrLenAt(w, n);
  }

  /**
   * A valid window with a '{' is the text from the first '{' through the
   * '}' the scan stopped at: the C string that starts at `start` in the
   * scanned buffer is exactly that slice of the response.
   */
  lemma FrameWindow(s: seq<char>)
    requires Terminated(s)
    requires FrameSpec(s).start.Some? && !FrameSpec(s).invalid
    ensures var f := FrameSpec(s);
      f.start.value <= f.size < |s| && Terminated(f.buffer[f.start.value..]) &&
      s[f.start.value] == '{' && s[f.size] == '}' &&
      Str(f.buffer[f.start.value..]) == s[f.start.value..f.size + 1]
  {
    var f := FrameSpec(s);
    var len := StrLen(s);
    assert f.size < len && f.buffer == Cleared(s, f.size, len);
    ClearedWindow(s, f.start.value, f.size, len);
  }

  /**
   * Text after the object is cut: in "x{a}y" the window is "{a}", and the
   * scan clears the 'y'.
   */
  lemma FrameCutsTrailingText()
    ensures var f := FrameSpec("x{a}y\0");
      f.start == Some(1) && f.size == 3 && !f.invalid && f.buffer == "x{a}\0\0"
  {
    var s := "x{a}y\0";
    assert StrLen(s) == 5 by { StrLenAt(s, 5); }
    assert StrChr(s, '{') == Some(1);
    LastCloseBraceUnique(s, 5, 3);
    assert Cleared(s, 3, 5) == "x{a}\0\0";
  }
}
