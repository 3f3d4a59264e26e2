/** The transport below the HTTP codecs, and the buffered reader over it. */
module Streams {
  import opened Strings

  /** The line a reader takes from `s`: through the first newline, or everything. */
  function LineOf(s: string): (line: string)
    ensures line <= s && (s != "" ==> line != "")
  {
    var k := IndexOf(s, '\n');
    if k < |s| then s[..k + 1] else s
  }

  /**
   * The peer's bytes, delivered in pieces of any size. A reliable stream fails
   * only at its end; any other may fail (n <= 0) whenever it likes.
   */
  class InnerStream {
    const reliable: bool
    var rest: string

    constructor (reliable: bool, bytes: string)
      ensures this.reliable == reliable && rest == bytes
    {
      this.reliable := reliable;
      rest := bytes;
    }

    method Read(dst: array<char>, size: nat) returns (n: int)
      requires size <= dst.Length
      modifies this, dst
      ensures n <= size
      ensures n > 0 ==> n <= |old(rest)| && dst[..n] == old(rest)[..n] && rest == old(rest)[n..]
      ensures n <= 0 ==> rest == old(rest) && dst[..] == old(dst[..])
      ensures forall k :: 0 <= k < dst.Length && n <= k ==> dst[k] == old(dst[k])
      ensures reliable ==> n >= 0 && (n == 0 <==> size == 0 || old(rest) == "")
    {
      n := if reliable then 0 else -1;
      var failing := *;
      if size > 0 && rest != "" && (reliable || !failing) {
        n :| 1 <= n <= size && n <= |rest|;
        forall i | 0 <= i < n {
          dst[i] := rest[i];
        }
        rest := rest[n..];
      }
    }

    /** The unbuffered line reader, one byte at a time. */
    method GetLine() returns (ok: bool, out: string)
      modifies this
      ensures ok == (out != "")
      ensures out <= LineOf(old(rest)) && rest == old(rest)[|out|..]
      ensures reliable ==> out == LineOf(old(rest))
    {
      out := "";
      var c := new char[1];
      ghost var was := rest;
      while true
        invariant out <= was && rest == was[|out|..]
        invariant forall i :: 0 <= i < |out| ==> out[i] != '\n'
        invariant fresh(c)
        decreases |rest|
      {
        var n := Read(c, 1);
        if n <= 0 {
          break;
        }
        assert c[..1][0] == c[0] == was[|out|];
        out := out + [c[0]];
        if c[0] == '\n' {
          break;
        }
      }
      ok := out != "";
    }
  }

  /**
   * The sending side: the peer takes what it likes of each write, also nothing
   * (for `stalls` writes at most, or no loop would ever get through), or fails;
   * a reliable stream never fails.
   */
  class OutStream {
    const reliable: bool
    var stalls: nat
    var sent: string

    constructor (reliable: bool, stalls: nat)
      ensures this.reliable == reliable && this.stalls == stalls && sent == ""
    {
      this.reliable, this.stalls := reliable, stalls;
      sent := "";
    }

    method Write(d: string) returns (length: int)
      modifies this
      ensures length <= |d| && (reliable ==> length >= 0)
      ensures sent == if length >= 0 then old(sent) + d[..length] else old(sent)
      ensures stalls <= old(stalls) && (length == 0 && d != "" ==> stalls < old(stalls))
    {
      var failing, stalling := *, *;
      length := if failing && !reliable then -1 else 0;
      if length == 0 && d != "" {
        if stalling && stalls > 0 {
          stalls := stalls - 1;
        } else {
          length :| 1 <= length <= |d|;
          sent := sent + d[..length];
        }
      }
    }

    /** Writes all of `d`, however many short writes that takes. */
    method WriteData(d: string) returns (ok: bool)
      modifies this
      ensures ok ==> sent == old(sent) + d
      ensures reliable ==> ok
    {
      var offset := 0;
      while offset < |d|
        invariant offset <= |d| && sent == old(sent) + d[..offset]
        decreases |d| - offset, stalls
      {
        var length := Write(d[offset..]);
        if length < 0 {
          return false;
        }
        assert d[..offset] + d[offset..][..length] == d[..offset + length];
        offset := offset + length;
      }
      assert d[..|d|] == d;
      ok := true;
    }
  }

  /** The buffered reader: a window over bytes already taken from the inner stream. */
  class BufferedStream {
    const inner: InnerStream
    const buffer: array<char>
    var pos: nat
    var end: nat

    constructor (inner: InnerStream, bufSize: nat)
      ensures Valid() && this.inner == inner && buffer.Length == bufSize && fresh(buffer)
      ensures Pending() == inner.rest
    {
      this.inner := inner;
      buffer := new char[bufSize];
      pos, end := 0, 0;
    }

    ghost predicate Valid()
      reads this
    {
      pos <= end <= buffer.Length
    }

    /** Every byte a reader of this stream has still to receive. */
    ghost function Pending(): string
      reads this, buffer, inner
      requires Valid()
    {
      buffer[pos..end] + inner.rest
    }

    method Fill() returns (n: int)
      requires Valid() && pos >= end
      modifies this, buffer, inner
      ensures Valid() && Pending() == old(Pending()) && pos == 0
      ensures if n > 0 then end == n else end == 0
      ensures inner.reliable ==> n >= 0 && (n == 0 <==> buffer.Length == 0 || old(Pending()) == "")
    {
      pos := 0;
      end := 0;
      n := inner.Read(buffer, buffer.Length);
      if n > 0 {
        end := n;
        assert old(inner.rest) == old(inner.rest)[..n] + old(inner.rest)[n..];
      }
    }

    /** Copies up to `size` bytes of the window to `dst`. */
    method CopyOut(dst: array<char>, size: nat) returns (n: int)
      requires Valid() && size <= dst.Length && dst != buffer
      modifies this`pos, dst
      ensures Valid() && 0 <= n <= size && n <= old(end - pos) && (n == size || n == old(end - pos))
      ensures n <= |old(Pending())| && dst[..n] == old(Pending())[..n] && Pending() == old(Pending())[n..]
      ensures forall k :: n <= k < dst.Length ==> dst[k] == old(dst[k])
    {
      n := if size < end - pos then size else end - pos;
      forall i | 0 <= i < n {
        dst[i] := buffer[pos + i];
      }
      assert buffer[pos..end] == buffer[pos..pos + n] + buffer[pos + n..end];
      pos := pos + n;
    }

    method Read(dst: array<char>, size: nat) returns (n: int)
      requires Valid() && size <= dst.Length && dst != buffer
      modifies this, buffer, inner, dst
      ensures Valid() && n <= size
      ensures n > 0 ==> n <= |old(Pending())| && dst[..n] == old(Pending())[..n] && Pending() == old(Pending())[n..]
      ensures n <= 0 ==> Pending() == old(Pending())
      ensures forall k :: 0 <= k < dst.Length && n <= k ==> dst[k] == old(dst[k])
      ensures inner.reliable ==> n >= 0 && (n == 0 <==> size == 0 || old(Pending()) == "")
    {
      if pos < end {
        n := CopyOut(dst, size);
        return;
      }
      if size >= buffer.Length {
        assert Pending() == inner.rest;
        n := inner.Read(dst, size);
        assert Pending() == inner.rest;
        return;
      }
      n := Fill();
      if n <= 0 {
        return;
      }
      n := CopyOut(dst, size);
    }

    /** Makes sure that the window is not empty; false at the end of the stream. */
    method Refill() returns (more: bool)
      requires Valid()
      modifies this, buffer, inner
      ensures Valid() && Pending() == old(Pending()) && more == (pos < end)
      ensures !more && inner.reliable && buffer.Length > 0 ==> Pending() == ""
    {
      if pos >= end {
        var n := Fill();
      }
      more := pos < end;
    }

    /** Takes the window up to its first newline, or all of it. */
    method TakePiece() returns (piece: string, newline: bool)
      requires Valid() && pos < end
      modifies this`pos
      ensures Valid() && piece != "" && piece <= old(Pending()) && Pending() == old(Pending())[|piece|..]
      ensures newline == (piece[|piece| - 1] == '\n')
      ensures forall i :: 0 <= i < |piece| - 1 ==> piece[i] != '\n'
    {
      var k := IndexOf(buffer[pos..end], '\n');
      newline := pos + k < end;
      var len := if newline then k + 1 else k;
      piece := buffer[pos..pos + len];
      assert buffer[pos..end] == piece + buffer[pos + len..end];
      assert forall i :: 0 <= i < k ==> piece[i] == buffer[pos..end][i];
      pos := pos + len;
    }

    method GetLine() returns (ok: bool, out: string)
      requires Valid()
      modifies this, buffer, inner
      ensures Valid() && ok == (out != "")
      ensures out <= LineOf(old(Pending())) && Pending() == old(Pending())[|out|..]
      ensures inner.reliable && buffer.Length > 0 ==> out == LineOf(old(Pending()))
      ensures buffer.Length == 0 ==> !ok
    {
      out := "";
      ghost var was := Pending();
      while true
        invariant Valid() && out <= was && Pending() == was[|out|..]
        invariant forall i :: 0 <= i < |out| ==> out[i] != '\n'
        invariant buffer.Length == 0 ==> out == ""
        decreases |Pending()|
      {
        var more := Refill();
        if !more {
          return out != "", out;
        }
        var piece, newline := TakePiece();
        PrefixGrows(was, out, piece);
        out := out + piece;
        if newline {
          LineEnds(was, out);
          return true, out;
        }
      }
    }
  }

  lemma PrefixGrows(s: string, out: string, piece: string)
    requires out <= s && piece <= s[|out|..]
    ensures out + piece <= s && s[|out|..][|piece|..] == s[|out + piece|..]
  {
  }

  /** One line, newline included. */
  predicate IsLine(line: string) {
    line != "" && line[|line| - 1] == '\n' && forall i :: 0 <= i < |line| - 1 ==> line[i] != '\n'
  }

  lemma LineEnds(s: string, line: string)
    requires IsLine(line) && line <= s
    ensures LineOf(s) == line
  {
    IndexOfIs(s, '\n', |line| - 1);
  }

  datatype Op = ReadOp(size: nat) | LineOp

  method PerformRead(s: BufferedStream, size: nat) returns (piece: string)
    requires s.Valid()
    modifies s, s.buffer, s.inner
    ensures s.Valid() && piece <= old(s.Pending()) && s.Pending() == old(s.Pending())[|piece|..]
  {
    piece := "";
    var dst := new char[size];
    var n := s.Read(dst, size);
    if n > 0 {
      piece := dst[..n];
    }
  }

  method Perform(s: BufferedStream, op: Op) returns (piece: string)
    requires s.Valid()
    modifies s, s.buffer, s.inner
    ensures s.Valid() && old(s.Pending()) == piece + s.Pending()
  {
    match op {
      case ReadOp(size) => piece := PerformRead(s, size);
      case LineOp =>
        var ok;
        ok, piece := s.GetLine();
    }
    Split(old(s.Pending()), |piece|);
  }

  lemma Split(s: string, n: nat)
    requires n <= |s|
    ensures s == s[..n] + s[n..]
  {
  }

  /** Any interleaving of the two ways of reading: nothing is lost, repeated or reordered. */
  method Interleave(s: BufferedStream, ops: seq<Op>) returns (got: seq<string>)
    requires s.Valid()
    modifies s, s.buffer, s.inner
    ensures s.Valid() && |got| == |ops|
    ensures Flatten(got) + s.Pending() == old(s.Pending())
    decreases |ops|
  {
    if ops == [] {
      return [];
    }
    ghost var before := s.Pending();
    var piece := Perform(s, ops[0]);
    ghost var between := s.Pending();
    var later := Interleave(s, ops[1..]);
    got := [piece] + later;
    FlattenCons(piece, later, before, between, s.Pending());
  }

  lemma FlattenCons(piece: string, later: seq<string>, before: string, between: string, after: string)
    requires before == piece + between && between == Flatten(later) + after
    ensures Flatten([piece] + later) + after == before
  {
    assert ([piece] + later)[1..] == later;
  }

  /** With the same bytes to come, the buffered and the unbuffered line reader answer alike. */
  method SameLine(plain: InnerStream, buffered: BufferedStream) returns (line: string)
    requires plain != buffered.inner && plain.reliable && buffered.inner.reliable
    requires buffered.Valid() && buffered.Pending() == plain.rest && buffered.buffer.Length > 0
    modifies plain, buffered, buffered.buffer, buffered.inner
    ensures buffered.Valid() && buffered.Pending() == plain.rest
    ensures line == LineOf(old(plain.rest)) && old(plain.rest) == line + plain.rest
  {
    var ok, line' := plain.GetLine();
    var ok';
    ok', line := buffered.GetLine();
    assert ok == ok' && line == line';
  }
}
