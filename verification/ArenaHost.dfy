/** The arena and the guest's linear memory as objects the host updates in place. */
module ArenaHosts {
  import A = Arena

  /** A linear memory that grows by whole pages up to its limit, when the runtime grants it. */
  class LinearMemory {
    var data: array<A.Byte>
    const maxPages: nat

    constructor (initial: nat, limit: nat)
      requires initial <= limit <= 65_536
      ensures fresh(data) && data[..] == A.Zeros(initial * 65_536) && maxPages == limit
    {
      data := new A.Byte[initial * 65_536](_ => 0);
      maxPages := limit;
    }

    method Grow(pages: nat, grant: bool) returns (ok: bool)
      requires data.Length % 65_536 == 0
      modifies this
      ensures ok == (grant && old(data.Length) / 65_536 + pages <= maxPages)
      ensures !ok ==> data == old(data)
      ensures ok ==> fresh(data) && data[..] == old(data[..]) + A.Zeros(pages * 65_536)
    {
      ok := grant && data.Length / 65_536 + pages <= maxPages;
      if ok {
        var size := data.Length;
        var bigger := new A.Byte[size + pages * 65_536](_ => 0);
        forall i | 0 <= i < size {
          bigger[i] := data[i];
        }
        assert bigger[..size] == data[..] && bigger[size..] == A.Zeros(pages * 65_536);
        assert bigger[..] == bigger[..size] + bigger[size..];
        data := bigger;
      }
    }

    method CopyIn(at: nat, bytes: seq<A.Byte>)
      requires at + |bytes| <= data.Length
      modifies data
      ensures data[..] == A.Put(old(data[..]), at, bytes)
    {
      forall i | 0 <= i < |bytes| {
        data[at + i] := bytes[i];
      }
    }
  }

  class HostStringArena {
    /** The next free offset; 0 until the arena is placed. */
    var next: nat

    constructor ()
      ensures next == 0
    {
      next := 0;
    }

    ghost function View(memory: LinearMemory): A.Host
      reads this, memory, memory.data
    {
      A.Host(next, memory.data[..], memory.maxPages)
    }

    method EnsurePages(memory: LinearMemory, end: nat, grant: bool) returns (ok: bool)
      requires A.MemoryOk(View(memory))
      modifies memory
      ensures memory.data == old(memory.data) || fresh(memory.data)
      ensures ok == A.EnsurePages(old(View(memory)), end, grant).Ok?
      ensures View(memory) == if ok then A.EnsurePages(old(View(memory)), end, grant).value else old(View(memory))
    {
      var need, cur := A.PagesFor(end), memory.data.Length / 65_536;
      ok := true;
      if need > cur {
        ok := memory.Grow(need - cur, grant);
      }
    }

    /** On first use, put the arena behind the memory the guest started with. */
    method Place(memory: LinearMemory, value: seq<A.Byte>, grant: bool) returns (ok: bool)
      requires A.MemoryOk(View(memory))
      modifies this, memory
      ensures memory.data == old(memory.data) || fresh(memory.data)
      ensures ok == A.Place(old(View(memory)), value, grant).Ok?
      ensures View(memory) == if ok then A.Place(old(View(memory)), value, grant).value else old(View(memory))
    {
      ok := true;
      if next == 0 {
        var start := A.Align4(memory.data.Length);
        ok := EnsurePages(memory, start + A.Need(value), grant);
        if ok {
          next := start % 0x1_0000_0000;
        }
      }
    }

    /** Place the arena and grow the memory to the string's end. */
    method MakeReady(memory: LinearMemory, value: seq<A.Byte>, grant: bool) returns (ok: bool)
      requires A.MemoryOk(View(memory))
      modifies this, memory
      ensures memory.data == old(memory.data) || fresh(memory.data)
      ensures ok == A.Ready(old(View(memory)), value, grant).Ok?
      ensures ok ==> View(memory) == A.Ready(old(View(memory)), value, grant).value
      ensures !ok ==> View(memory) == old(View(memory))
    {
      A.PlaceFacts(View(memory), value, grant);
      A.ReadyFacts(View(memory), value, grant);
      ok := Place(memory, value, grant);
      if ok {
        ok := EnsurePages(memory, next + A.Need(value), grant);
      }
    }

    /** Copy the length and the bytes to the arena's offset and move on past them. */
    method Store(memory: LinearMemory, value: seq<A.Byte>)
      requires next + A.Need(value) <= memory.data.Length
      modifies this, memory.data
      ensures View(memory) == A.Store(old(View(memory)), value)
    {
      memory.CopyIn(next, A.Le32(|value| % 0x1_0000_0000));
      memory.CopyIn(next + 4, value);
      next := (next + A.Need(value)) % 0x1_0000_0000;
    }

    /** Place a string in guest memory and return its pointer. */
    method Write(memory: LinearMemory, value: seq<A.Byte>, grant: bool) returns (r: A.Result<int>)
      requires A.MemoryOk(View(memory))
      modifies this, memory, memory.data
      ensures memory.data == old(memory.data) || fresh(memory.data)
      ensures r.Ok? == A.Write(old(View(memory)), value, grant).0.Ok?
      ensures r.Ok? ==> r == A.Write(old(View(memory)), value, grant).0
      ensures View(memory) == A.Write(old(View(memory)), value, grant).1
    {
      A.ReadyFacts(View(memory), value, grant);
      var ok := MakeReady(memory, value, grant);
      if !ok {
        return A.Err("memory.grow");
      }
      var start := next;
      Store(memory, value);
      return A.Ok(A.AsI32(start));
    }
  }

  method Read(memory: LinearMemory, ptr: int, utf8: seq<A.Byte> -> bool) returns (r: A.Result<seq<A.Byte>>)
    ensures r == A.Read(memory.data[..], ptr, utf8)
  {
    if ptr < 0 {
      return A.Err("negative pointer");
    }
    var data := memory.data;
    if ptr + 4 > data.Length {
      return A.Err("no room for the length");
    }
    var len := A.FromLe32(data[ptr..ptr + 4]);
    if ptr + 4 + len > data.Length {
      return A.Err("no room for the bytes");
    }
    var bytes := data[ptr + 4..ptr + 4 + len];
    assert data[..][ptr..ptr + 4] == data[ptr..ptr + 4];
    assert data[..][ptr + 4..ptr + 4 + len] == bytes;
    return if utf8(bytes) then A.Ok(bytes) else A.Err("not utf-8");
  }
}
