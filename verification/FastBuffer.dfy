/** The growing byte queue of `fastbuffer.h`. */
module FastBuffer {
  import opened Bytes

  lemma Extended(log: Text, gone: nat, bytes: Text)
    requires gone <= |log|
    ensures (log + bytes)[gone..] == log[gone..] + bytes
  {}

  lemma Shortened(log: Text, gone: nat, dz: nat)
    requires gone + dz <= |log|
    ensures log[gone..][dz..] == log[gone + dz..] && log[gone..][..dz] == log[gone..gone + dz]
    ensures log[gone..] == log[gone..][..dz] + log[gone..][dz..]
  {}

  class FastBuffer {
    var buf: array<Byte>
    var size: nat
    var bufsize: nat
    /** Everything ever appended, how much of it has left again, and the bytes that realloc may
        have copied so far. */
    ghost var log: Text
    ghost var gone: nat
    ghost var copied: nat

    ghost predicate Valid()
      reads this, buf
    {
      && size <= bufsize == buf.Length
      && gone + size == |log| && buf[..size] == log[gone..]
      && copied <= bufsize && copied <= 2 * |log|
    }

    /** The bytes waiting to be read. */
    ghost function Content(): Text
      requires Valid()
      reads this, buf
    {
      buf[..size]
    }

    constructor ()
      ensures Valid() && Content() == [] && log == []
      ensures fresh(buf)
    {
      buf := new Byte[0];
      size, bufsize, log, gone, copied := 0, 0, [], 0, 0;
    }

    /** The realloc of `append`, one that succeeds, which copies the old buffer. */
    method Grow(sz: nat)
      requires Valid() && sz >= bufsize
      modifies this
      ensures fresh(buf) && bufsize == buf.Length == sz && copied == old(copied) + old(bufsize)
      ensures size == old(size) && size <= bufsize && buf[..size] == old(buf[..size])
      ensures log == old(log) && gone == old(gone)
    {
      var b := new Byte[sz](_ => 0);
      forall i | 0 <= i < bufsize {
        b[i] := buf[i];
      }
      assert b[..size] == buf[..size];
      copied := copied + bufsize;
      buf, bufsize := b, sz;
    }

    /** `append`.  Growing doubles, so that all copying together stays within twice what was
        appended, whatever is read or cleared in between. */
    method Append(bytes: Text) returns (n: nat)
      requires Valid()
      modifies this, buf
      ensures Valid() && n == |bytes|
      ensures Content() == old(Content()) + bytes
      ensures log == old(log) + bytes && gone == old(gone)
      ensures bufsize >= old(bufsize) && (buf == old(buf) || fresh(buf))
      ensures if old(size) + n <= old(bufsize) then bufsize == old(bufsize) && copied == old(copied)
              else bufsize == 2 * (old(bufsize) + n) && copied == old(copied) + old(bufsize)
    {
      ghost var c := Content();
      if bufsize - size < |bytes| {
        Grow((bufsize + |bytes|) * 2);
      }
      forall i | 0 <= i < |bytes| {
        buf[size + i] := bytes[i];
      }
      Extended(log, gone, bytes);
      size := size + |bytes|;
      log := log + bytes;
      assert buf[..size] == c + bytes;
      n := |bytes|;
    }

    method PushBack(b: Byte) returns (n: nat)
      requires Valid()
      modifies this, buf
      ensures Valid() && n == 1
      ensures Content() == old(Content()) + [b] && log == old(log) + [b] && gone == old(gone)
      ensures buf == old(buf) || fresh(buf)
    {
      n := Append([b]);
    }

    /** The memmove of `read`. */
    method Slide(dz: nat)
      requires dz <= size <= buf.Length
      modifies buf
      ensures buf[..size - dz] == old(buf[..size])[dz..]
    {
      forall i | 0 <= i < size - dz {
        buf[i] := buf[i + dz];
      }
    }

    /** `read`: the oldest bytes, at most `bz`, leave in the order of their arrival; `out` is what
        a destination receives, if there is one. */
    method Read(destination: bool, bz: nat) returns (dz: nat, out: Text)
      requires Valid()
      modifies this, buf
      ensures Valid() && dz == if bz > old(size) then old(size) else bz
      ensures old(Content()) == old(Content())[..dz] + Content()
      ensures out == if destination then old(Content())[..dz] else []
      ensures log == old(log) && gone == old(gone) + dz && old(Content())[..dz] == log[old(gone)..gone]
      ensures buf == old(buf) && bufsize == old(bufsize) && copied == old(copied)
    {
      dz := if bz > size then size else bz;
      out := if destination then buf[..dz] else [];
      Slide(dz);
      size := size - dz;
      Shortened(log, gone, dz);
      gone := gone + dz;
    }

    method Clear()
      requires Valid()
      modifies this
      ensures Valid() && Content() == [] && log == old(log) && buf == old(buf)
      ensures bufsize == old(bufsize) && copied == old(copied)
    {
      gone := |log|;
      size := 0;
    }
  }
}
