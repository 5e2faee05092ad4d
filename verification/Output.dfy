/** The output half of src/io.c: a write buffer in front of a descriptor. */
module Output {
  import opened Bytes

  class Sink {
    const buf: array<byte>
    var count: nat
    var echo: bool
    /** The descriptor: whether write() never fails or falls short, and what it has taken. */
    const reliable: bool
    var file: seq<byte>

    ghost predicate Valid()
      reads this, buf
    {
      buf.Length == IO_BUF_SIZE && count <= IO_BUF_SIZE
    }

    /** Everything given to Write so far: what has reached the file, then what waits. */
    ghost function Sent(): seq<byte>
      requires Valid()
      reads this, buf
    {
      file + buf[..count]
    }

    constructor (reliable: bool)
      ensures Valid() && Sent() == [] && this.reliable == reliable && !echo && fresh(buf)
    {
      this.reliable := reliable;
      buf := new byte[IO_BUF_SIZE](_ => 0);
      count, echo, file := 0, false, [];
    }

    /** write(2), reduced to whether all of `data` was taken; if not, some prefix was. */
    method WriteFile(data: seq<byte>) returns (ok: bool)
      modifies this`file
      ensures reliable ==> ok
      ensures ok ==> file == old(file) + data
      ensures !ok ==> exists k: nat :: k <= |data| && file == old(file) + data[..k]
    {
      var taken: int := *;
      ok := reliable || taken < 0 || taken >= |data|;
      ghost var k := if ok then |data| else taken;
      assert data[..|data|] == data && k <= |data|;
      file := file + (if ok then data else data[..taken]);
      assert k <= |data| && file == old(file) + data[..k];
    }

    method Flush() returns (ok: bool)
      requires Valid()
      modifies this`file, this`count
      ensures Valid() && (reliable ==> ok)
      ensures ok ==> count == 0 && file == Sent() == old(Sent())
      ensures !ok ==> count == old(count)
      ensures old(file) <= file
    {
      if count == 0 {
        return true;
      }
      ok := WriteFile(buf[..count]);
      if ok {
        count := 0;
      }
    }

    method Write(data: seq<byte>) returns (ok: bool)
      requires Valid()
      modifies this`file, this`count, buf
      ensures Valid() && (reliable ==> ok)
      ensures !echo ==> ok && Sent() == old(Sent()) && file == old(file)
      ensures echo && ok ==> Sent() == old(Sent()) + data
      ensures old(file) <= file
    {
      if !echo {
        return true;
      }
      if count + |data| > IO_BUF_SIZE {
        ok := Flush();
        if !ok {
          return;
        }
      }
      if |data| > IO_BUF_SIZE {
        ok := WriteFile(data);
        assert buf[..count] == [];
        return;
      }
      label Copy:
      forall i | 0 <= i < |data| {
        buf[count + i] := data[i];
      }
      assert buf[..count] == old@Copy(buf[..count]);
      assert buf[..count + |data|] == buf[..count] + data;
      count := count + |data|;
      return true;
    }
  }
}
