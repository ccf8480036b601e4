/** The byte string that names are stored in (utils/string.rs). */
module Texts {
  import opened Multiples

  type Byte = n: nat | n < 256

  /** One segment of an ACPI path. */
  type Name = s: seq<Byte> | |s| == 4 witness [0, 0, 0, 0]

  /** Whole segments, as many as a byte can count. */
  type Segments = s: seq<Byte> | |s| % 4 == 0 && |s| <= 4 * 255

  /** A name as it is read from the machine code: segments of four bytes each. */
  datatype NameString =
    | Single(name: Name, absolute: bool)
    | Dual(first: Name, second: Name, absolute: bool)
    | Multiple(bytes: Segments, absolute: bool)

  /** Where byte `k` of a forward copy was before the copy. A byte that is overwritten before it is read is a copy of
      one further back. */
  function CopiedFrom(dest: nat, srce: nat, k: nat): (i: nat)
    ensures srce <= i <= srce + k
    decreases k
  {
    if srce < dest <= srce + k then CopiedFrom(dest, srce, srce + k - dest) else srce + k
  }

  /** To a later place, the bytes between the two places are repeated over and over. */
  lemma {:induction false} CopyRepeats(dest: nat, srce: nat, k: nat)
    requires srce < dest
    ensures CopiedFrom(dest, srce, k) == srce + k % (dest - srce)
    decreases k
  {
    var d := dest - srce;
    if k >= d {
      CopyRepeats(dest, srce, k - d);
      Scaled((k - d) / d, 1, d);
      Remainder(k, d, (k - d) / d + 1, (k - d) % d);
    } else {
      Remainder(k, d, 0, k);
    }
  }

  /** The outcome of a forward copy of `n` bytes. */
  ghost predicate Copied(was: seq<Byte>, now: seq<Byte>, dest: nat, srce: nat, n: nat)
    requires dest + n <= |was| && srce + n <= |was|
  {
    && |now| == |was|
    && (forall j :: 0 <= j < |was| && !(dest <= j < dest + n) ==> now[j] == was[j])
    && (forall k: nat :: k < n ==> now[dest + k] == was[CopiedFrom(dest, srce, k)])
  }

  lemma SliceMore(s: seq<Byte>, at: nat, n: nat)
    requires at + n < |s|
    ensures s[at..at + n + 1] == s[at..at + n] + [s[at + n]]
  {
  }

  lemma CopyNone(was: seq<Byte>, dest: nat, srce: nat)
    requires dest <= |was| && srce <= |was|
    ensures Copied(was, was, dest, srce, 0)
  {
  }

  lemma CopyStep(was: seq<Byte>, now: seq<Byte>, dest: nat, srce: nat, i: nat)
    requires dest + i < |was| && srce + i < |was| && Copied(was, now, dest, srce, i)
    ensures Copied(was, now[dest + i := now[srce + i]], dest, srce, i + 1)
  {
    if srce < dest <= srce + i {
      var k := srce + i - dest;
      assert now[dest + k] == was[CopiedFrom(dest, srce, k)];
    }
  }

  /** A copy of earlier bytes to the end. */
  lemma CopiedAtEnd(was: seq<Byte>, now: seq<Byte>, dest: nat, srce: nat, n: nat)
    requires srce + n <= dest && dest + n <= |was| && Copied(was, now, dest, srce, n)
    ensures now[..dest + n] == was[..dest] + was[srce..srce + n]
  {
    forall j | dest <= j < dest + n ensures now[j] == was[srce + j - dest] {
      assert now[dest + (j - dest)] == was[CopiedFrom(dest, srce, j - dest)];
    }
  }

  lemma SliceOfPrefix(s: seq<Byte>, n: nat, i: nat, j: nat)
    requires i <= j <= n <= |s|
    ensures s[..n][i..j] == s[i..j]
  {
  }

  class Text {
    const buffer: array<Byte>
    var length: nat

    ghost predicate Valid()
      reads this
    {
      length <= buffer.Length
    }

    ghost function Bytes(): (s: seq<Byte>)
      requires Valid()
      reads this, buffer
      ensures |s| == length
    {
      buffer[..length]
    }

    constructor (capacity: nat)
      ensures Valid() && fresh(buffer) && Bytes() == [] && buffer.Length == capacity
    {
      buffer := new Byte[capacity](_ => 0);
      length := 0;
    }

    /** Whether the `count` bytes at the two offsets are the same; never so past the end. */
    method Compare(offset0: nat, offset1: nat, count: nat) returns (same: bool)
      requires Valid()
      ensures same <==> offset0 + count <= length && offset1 + count <= length
                        && Bytes()[offset0..offset0 + count] == Bytes()[offset1..offset1 + count]
    {
      if offset0 + count > length || offset1 + count > length {
        return false;
      }
      for i := 0 to count
        invariant Bytes()[offset0..offset0 + i] == Bytes()[offset1..offset1 + i]
      {
        if buffer[offset0 + i] != buffer[offset1 + i] {
          assert Bytes()[offset0..offset0 + count][i] != Bytes()[offset1..offset1 + count][i];
          return false;
        }
        SliceMore(Bytes(), offset0, i);
        SliceMore(Bytes(), offset1, i);
      }
      return true;
    }

    method CompareExtern(offset: nat, other: seq<Byte>) returns (same: bool)
      requires Valid()
      ensures same <==> offset + |other| <= length && Bytes()[offset..offset + |other|] == other
    {
      if offset + |other| > length {
        return false;
      }
      for i := 0 to |other|
        invariant Bytes()[offset..offset + i] == other[..i]
      {
        if buffer[offset + i] != other[i] {
          assert Bytes()[offset..offset + |other|][i] != other[i];
          return false;
        }
      }
      assert other[..|other|] == other;
      return true;
    }

    /** Copies bytes forward, one after the other, anywhere in the buffer. Panics beyond the capacity. Where the
        stretches overlap and the destination is the later one, the bytes before it repeat. A destination past the end
        makes what lies before it part of the string. */
    method Copy(dest: nat, srce: nat, count: nat) returns (panicked: bool)
      requires Valid()
      modifies this, buffer
      ensures Valid() && panicked == (dest + count > buffer.Length || srce + count > buffer.Length)
      ensures length == if panicked || dest + count <= old(length) then old(length) else dest + count
      ensures panicked ==> buffer[..] == old(buffer[..])
      ensures !panicked ==> Copied(old(buffer[..]), buffer[..], dest, srce, count)
      ensures !panicked && srce + count <= dest == old(length) ==>
                Bytes() == old(Bytes()) + old(Bytes()[srce..srce + count])
    {
      hide Copied;
      if dest + count > buffer.Length || srce + count > buffer.Length {
        return true;
      }
      if dest + count > length {
        length := dest + count;
      }
      ghost var was := buffer[..];
      CopyNone(was, dest, srce);
      for i := 0 to count
        modifies buffer
        invariant Copied(was, buffer[..], dest, srce, i)
      {
        CopyStep(was, buffer[..], dest, srce, i);
        buffer[dest + i] := buffer[srce + i];
      }
      if srce + count <= dest == old(length) {
        CopiedAtEnd(was, buffer[..], dest, srce, count);
        assert was[..dest] == old(Bytes());
        SliceOfPrefix(was, dest, srce, srce + count);
      }
      return false;
    }

    /** Appends `other`, or panics when it does not fit. */
    method PushBackRaw(other: seq<Byte>) returns (panicked: bool)
      requires Valid()
      modifies this, buffer
      ensures Valid() && panicked == (old(length) + |other| > buffer.Length)
      ensures Bytes() == if panicked then old(Bytes()) else old(Bytes()) + other
    {
      if length + |other| > buffer.Length {
        return true;
      }
      forall i | 0 <= i < |other| {
        buffer[length + i] := other[i];
      }
      length := length + |other|;
      return false;
    }
  }
}
