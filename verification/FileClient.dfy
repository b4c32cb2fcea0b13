/** The client library as it runs: page table, descriptors and memory updated in place, with its loops. */
module FileClients {
  import opened Options
  import opened Bytes
  import opened FileWindow

  class FileClient {
    var table: map<nat, nat>
    var fds: map<nat, OpenFile>
    var mem: map<nat, byte>

    ghost function State(): Client
      reads this
    {
      Client(table, fds, mem)
    }

    constructor (mem: map<nat, byte>)
      ensures State() == Client(map[], map[], mem) && Agree(State())
    {
      table, fds := map[], map[];
      this.mem := mem;
      new;
      EmptyAgrees(mem);
    }

    /** `fd_alloc`. */
    method FdAlloc() returns (r: Option<nat>)
      ensures r == FreeFd(table, 0)
    {
      var i := 0;
      while i < MAXFD - 1
        invariant i <= MAXFD - 1 && FreeFd(table, 0) == FreeFd(table, i)
      {
        if FdPage(i) !in table {
          return Some(i);
        }
        i := i + 1;
      }
      r := None;
    }

    /** The loop of `fsipc_map` calls, from page `from` up to the page where the server refuses or to `to`. */
    method MapPages(i: nat, from: nat, to: nat, answers: map<nat, nat>) returns (ok: bool)
      modifies this`table
      ensures MapRange(old(table), i, from, to, answers) == (table, ok)
    {
      var k := from;
      while k < to
        invariant MapRange(table, i, k, to, answers) == MapRange(old(table), i, from, to, answers)
      {
        if k !in answers {
          return false;
        }
        table := table[DataPage(i, k) := answers[k]];
        k := k + 1;
      }
      ok := true;
    }

    /** The loop of `syscall_mem_unmap` calls. */
    method UnmapPages(i: nat, from: nat, to: nat)
      modifies this`table
      ensures table == UnmapRange(old(table), i, from, to)
    {
      var k := from;
      while k < to
        invariant UnmapRange(table, i, k, to) == UnmapRange(old(table), i, from, to)
      {
        table := table - {DataPage(i, k)};
        k := k + 1;
      }
    }

    /** `open`. */
    method OpenPath(reply: OpenReply, answers: map<nat, nat>) returns (code: Code)
      modifies this`table, this`fds
      ensures Open(old(State()), reply, answers) == (State(), code)
    {
      var i := FdAlloc();
      if i.None? {
        return MaxOpen;
      }
      if reply.Refused? {
        return ServerError;
      }
      table := table[FdPage(i.value) := reply.frame];
      fds := fds[i.value := reply.file];
      var ok := MapPages(i.value, 0, PagesFor(reply.file.size), answers);
      code := if ok then Done else ServerError;
    }

    /** `ftruncate`. */
    method Ftruncate(i: nat, size: nat, setOk: bool, answers: map<nat, nat>) returns (code: Code)
      modifies this`table, this`fds
      ensures Truncate(old(State()), i, size, setOk, answers) == (State(), code)
    {
      if size > MAXFILESIZE {
        return NoDisk;
      }
      if i !in fds {
        return Invalid;
      }
      var oldsize := fds[i].size;
      fds := fds[i := fds[i].(size := size)];
      if !setOk {
        return ServerError;
      }
      var ok := MapPages(i, PagesFor(oldsize), PagesFor(size), answers);
      if !ok {
        return ServerError;
      }
      UnmapPages(i, PagesFor(size), PagesFor(oldsize));
      code := Done;
    }

    /** `user_bcopy` into the window. */
    method CopyBytes(va: nat, data: seq<byte>)
      requires Mapped(table, va, |data|)
      modifies this`mem
      ensures mem == CopyIn(old(mem), table, va, data)
    {
      var k := 0;
      assert data[..0] == [];
      while k < |data|
        invariant k <= |data| && Mapped(table, va, k)
        invariant mem == CopyIn(old(mem), table, va, data[..k])
      {
        assert data[..k + 1][..k] == data[..k];
        mem := mem[Phys(table, va, k) := data[k]];
        k := k + 1;
      }
      assert data[..k] == data;
    }

    /** `file_write`. */
    method FileWrite(i: nat, data: seq<byte>, offset: nat, setOk: bool, answers: map<nat, nat>) returns (code: Code)
      modifies this
      ensures Write(old(State()), i, data, offset, setOk, answers) == (State(), code)
    {
      var tot := (offset + |data|) % UINT;
      if tot > MAXFILESIZE {
        return NoDisk;
      }
      if i !in fds {
        return Invalid;
      }
      if tot > fds[i].size {
        code := Ftruncate(i, tot, setOk, answers);
        if code != Done {
          return;
        }
      }
      if !Mapped(table, DataVa(i) + offset, |data|) {
        return Fault;
      }
      CopyBytes(DataVa(i) + offset, data);
      code := Done;
    }

    /** `file_read`. */
    method FileRead(i: nat, n: nat, offset: nat) returns (r: Option<seq<byte>>)
      requires i in fds
      ensures r == Read(State(), i, n, offset)
    {
      var size := fds[i].size;
      if offset > size {
        return Some([]);
      }
      var len := if (offset + n) % UINT > size then size - offset else n;
      if !Mapped(table, DataVa(i) + offset, len) {
        return None;
      }
      r := Some(CopyOut(mem, table, DataVa(i) + offset, len));
    }

    /** `close`, with `file_close` and `fd_close`. */
    method CloseFd(i: nat, closeOk: bool) returns (code: Code)
      modifies this`table, this`fds
      ensures Close(old(State()), i, closeOk) == (State(), code)
    {
      if i !in fds {
        return Invalid;
      }
      if closeOk {
        UnmapPages(i, 0, PagesFor(fds[i].size));
      }
      table := table - {FdPage(i)};
      fds := fds - {i};
      code := if closeOk then Done else ServerError;
    }
  }
}
