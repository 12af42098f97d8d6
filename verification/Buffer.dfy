/** `Buffer`: the byte queue behind every connection. */
module Buffers {
  import opened Bytes
  import opened Framing

  class Buffer {
    var data: Bytes

    constructor (data: Bytes)
      ensures this.data == data
    {
      this.data := data;
    }

    /** `get_length` narrows a 64-bit size to 32 bits. */
    function GetLength(): (n: u32)
      reads this
      ensures |data| < TWO_TO_32 ==> n == |data|
    {
      Truncate32(|data|)
    }

    method AppendInternal(d: Bytes) returns (n: u32)
      modifies this
      ensures data == old(data) + d && n == GetLength()
    {
      data := data + d;
      n := Truncate32(|data|);
    }

    method Append(msg: Message) returns (n: u32)
      modifies this
      ensures data == old(data) + NetStr(msg) && n == GetLength()
    {
      n := AppendInternal(HeaderBytes(msg.header));
      n := AppendInternal(msg.payload);
      Assoc(old(data), HeaderBytes(msg.header), msg.payload);
    }

    /** `consume(std::string&, sz)`: at most `sz` bytes leave the front of the queue. */
    method Consume(sz: u32) returns (ok: bool, store: Bytes)
      modifies this
      ensures ok <==> sz > 0 && old(data) != []
      ensures |store| == Min(sz, |old(data)|)
      ensures old(data) == store + data
    {
      if sz == 0 || data == [] {
        return false, [];
      }
      if sz >= |data| {
        store := data;
        data := [];
        return true, store;
      }
      var remain := data[sz..];
      store := data[..sz];
      data := remain;
      return true, store;
    }

    /** `consume(char*, sz)`: the bytes are copied to the front of `store`. `memcpy` copies `sz`
        bytes whatever the queue holds, so the caller must not ask for more than there are. */
    method ConsumeRaw(store: array<u8>, sz: u32) returns (ok: bool)
      requires sz <= |data| && sz <= store.Length
      modifies this, store
      ensures ok <==> sz > 0
      ensures old(data) == store[..sz] + data
      ensures store[sz..] == old(store[sz..])
    {
      if sz == 0 || data == [] {
        return false;
      }
      forall i | 0 <= i < sz {
        store[i] := data[i];
      }
      assert store[..sz] == data[..sz];
      FrontErase(sz);
      return true;
    }

    method FrontErase(sz: u32)
      modifies this
      ensures data == old(data)[Min(sz, |old(data)|)..]
    {
      if sz >= |data| {
        data := [];
        return;
      }
      var remain := data[sz..];
      data := remain;
    }
  }
}
