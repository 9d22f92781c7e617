/** The client's growing output buffer. */
module ClientStream {
  import opened Bytes

  class SprotoStream {
    var size: nat
    var pos: nat
    var buffer: array<byte>

    ghost predicate Valid()
      reads this
    {
      0 < size == buffer.Length && pos <= size
    }

    /** Everything before the position. */
    ghost function Prefix(): (p: seq<byte>)
      requires Valid()
      reads this, buffer
      ensures |p| == pos
    {
      buffer[..pos]
    }

    constructor ()
      ensures Valid() && fresh(buffer) && pos == 0
    {
      size := 128;
      pos := 0;
      buffer := new byte[128];
    }

    /** Doubles the buffer until `sz` more bytes fit; never more than is needed. */
    method Expand(sz: nat)
      requires 0 < size == buffer.Length
      modifies this`size, this`buffer
      ensures buffer == old(buffer) || fresh(buffer)
      ensures 0 < size == buffer.Length && pos + sz <= size
      ensures size == old(size) || (old(size) < size < 2 * (pos + sz))
      ensures old(buffer.Length) <= buffer.Length && buffer[..old(size)] == old(buffer[..])
    {
      if size < pos + sz {
        var bak := size;
        while size < pos + sz
          invariant 0 < size && bak <= size && buffer == old(buffer)
          invariant size == bak || size < 2 * (pos + sz)
          decreases pos + sz - size
        {
          size := size * 2;
        }
        var newBuffer := new byte[size];
        for i := 0 to bak
          invariant buffer == old(buffer) && size == newBuffer.Length
          invariant newBuffer[..i] == buffer[..i]
        {
          newBuffer[i] := buffer[i];
        }
        buffer := newBuffer;
      }
    }

    method WriteByte(v: byte)
      requires Valid()
      modifies this, buffer
      ensures Valid() && pos == old(pos) + 1
      ensures buffer == old(buffer) || fresh(buffer)
      ensures Wrote(old(buffer[..]), buffer[..], old(pos), [v])
    {
      Expand(1);
      buffer[pos] := v;
      pos := pos + 1;
    }

    method Write(data: seq<byte>)
      requires Valid()
      modifies this, buffer
      ensures Valid() && pos == old(pos) + |data|
      ensures buffer == old(buffer) || fresh(buffer)
      ensures Wrote(old(buffer[..]), buffer[..], old(pos), data)
    {
      ghost var was := buffer[..];
      Expand(|data|);
      ghost var at, grown := pos, buffer[..];
      for i := 0 to |data|
        invariant Valid() && pos == at + i && buffer.Length == |grown|
        invariant buffer == old(buffer) || fresh(buffer)
        invariant forall j :: 0 <= j < at ==> buffer[j] == grown[j]
        invariant forall j :: at <= j < pos ==> buffer[j] == data[j - at]
        invariant forall j :: pos <= j < |grown| ==> buffer[j] == grown[j]
      {
        buffer[pos] := data[i];
        pos := pos + 1;
      }
      hide *;
      Written(was, grown, buffer[..], at, data);
    }

    /** The indexer: any byte of the buffer, written already or not. */
    method SetByte(i: nat, v: byte) returns (ok: bool)
      requires Valid()
      modifies buffer
      ensures ok <==> i < size
      ensures buffer[..] == if ok then old(buffer[..])[i := v] else old(buffer[..])
      ensures Prefix() == if i < pos then old(Prefix())[i := v] else old(Prefix())
    {
      if i >= size {
        return false;
      }
      buffer[i] := v;
      return true;
    }

    method Seek(to: nat)
      requires Valid()
      modifies this
      ensures Valid() && pos == to
      ensures buffer == old(buffer) || fresh(buffer)
      ensures old(buffer.Length) <= buffer.Length && buffer[..old(size)] == old(buffer[..])
    {
      pos := to;
      Expand(0);
    }

    /** Moves the bytes from `position` on up by `upCount`, in ascending order. */
    method MoveUp(position: nat, upCount: int)
      requires Valid() && upCount <= position <= pos
      modifies this`pos, buffer
      ensures Valid()
      ensures upCount <= 0 ==> pos == old(pos) && buffer[..] == old(buffer[..])
      ensures upCount > 0 ==>
        && pos == old(pos) - upCount
        && Prefix() == old(Prefix())[..position - upCount] + old(Prefix())[position..]
    {
      if upCount <= 0 {
        return;
      }
      var count := pos - position;
      for i := 0 to count
        invariant pos == old(pos)
        invariant forall j :: 0 <= j < position - upCount ==> buffer[j] == old(buffer[j])
        invariant forall j :: position - upCount <= j < position - upCount + i ==> buffer[j] == old(buffer[j + upCount])
        invariant forall j :: position - upCount + i <= j < buffer.Length ==> buffer[j] == old(buffer[j])
      {
        buffer[position - upCount + i] := buffer[position + i];
      }
      MovedUp(old(buffer[..]), buffer[..], position - upCount, position, pos);
      pos := pos - upCount;
    }
  }

  lemma MovedUp(was: seq<byte>, now: seq<byte>, to: nat, from: nat, end: nat)
    requires to <= from <= end <= |was| == |now|
    requires forall j :: 0 <= j < to ==> now[j] == was[j]
    requires forall j :: to <= j < to + (end - from) ==> now[j] == was[j + (from - to)]
    ensures now[..end - (from - to)] == was[..end][..to] + was[..end][from..]
  {
  }

  lemma Written(was: seq<byte>, grown: seq<byte>, now: seq<byte>, at: nat, data: seq<byte>)
    requires at <= |was| <= |grown| == |now| && at + |data| <= |now| && grown[..|was|] == was
    requires forall j :: 0 <= j < at ==> now[j] == grown[j]
    requires forall j :: at <= j < at + |data| ==> now[j] == data[j - at]
    requires forall j :: at + |data| <= j < |grown| ==> now[j] == grown[j]
    ensures Wrote(was, now, at, data)
  {
    forall j | 0 <= j < |was|
      ensures grown[j] == was[j]
    {
      assert grown[..|was|][j] == was[j];
    }
    hide Wrote;
    WroteIs(was, now, at, data);
  }
}
