/** The block device of fota_block_device.h, whose drivers are not part of this
    model: aligned reads and programs, erase, and a supply that may fail after
    any byte. */
module BlockDevice {
  import opened Bytes

  class Device {
    const readSize: nat
    const progSize: nat
    const eraseSize: nat
    const erased: byte
    var mem: Bytes

    /** How many more bytes can be programmed or erased before power is lost. */
    var power: nat

    constructor (mem: Bytes, readSize: nat, progSize: nat, eraseSize: nat, erased: byte, power: nat)
      ensures this.mem == mem && this.power == power
      ensures this.readSize == readSize && this.progSize == progSize
      ensures this.eraseSize == eraseSize && this.erased == erased
    {
      this.mem, this.power := mem, power;
      this.readSize, this.progSize, this.eraseSize, this.erased := readSize, progSize, eraseSize, erased;
    }

    /** fota_bd_read */
    method Read(addr: nat, size: nat) returns (ok: bool, data: Bytes)
      requires readSize > 0 && Multiple(addr, readSize) && Multiple(size, readSize)
      ensures ok <==> addr + size <= |mem|
      ensures ok ==> data == mem[addr..addr + size]
    {
      if addr + size > |mem| {
        return false, [];
      }
      return true, mem[addr..addr + size];
    }

    /** Every byte of the target is erased, or holds already what is to be written. */
    predicate Writable(data: Bytes, addr: nat)
      requires addr + |data| <= |mem|
      reads this
    {
      forall i :: 0 <= i < |data| ==> mem[addr + i] == erased || mem[addr + i] == data[i]
    }

    /** fota_bd_program: only whole program units, and only where that is possible. */
    method Program(data: Bytes, addr: nat) returns (ok: bool)
      requires progSize > 0 && Multiple(addr, progSize) && Multiple(|data|, progSize)
      requires addr + |data| <= |mem| ==> Writable(data, addr)
      modifies this
      ensures addr + |data| > |old(mem)| ==> !ok && mem == old(mem) && power == old(power)
      ensures addr + |data| <= |old(mem)| ==>
                var n := Min(|data|, old(power));
                mem == Splice(old(mem), addr, data[..n]) && (ok <==> n == |data|) && power == old(power) - n
    {
      if addr + |data| > |mem| {
        return false;
      }
      var n := Min(|data|, power);
      mem := Splice(mem, addr, data[..n]);
      power := power - n;
      ok := n == |data|;
    }

    /** fota_bd_erase: sector by sector, from low to high addresses. A power cut
        leaves whole sectors erased; `n` is how many bytes that makes. */
    method Erase(addr: nat, size: nat) returns (ok: bool, ghost n: nat)
      requires eraseSize > 0 && Multiple(addr, eraseSize) && Multiple(size, eraseSize)
      modifies this
      ensures addr + size > |old(mem)| ==> !ok && mem == old(mem) && n == 0 && power == old(power)
      ensures addr + size <= |old(mem)| ==>
                n <= size && Multiple(n, eraseSize) && mem == Splice(old(mem), addr, Fill(erased, n))
      ensures ok <==> addr + size <= |old(mem)| && n == size
      ensures ok ==> power == old(power) - size
      ensures addr + size <= |old(mem)| && !ok ==> power == 0 && old(power) < n + eraseSize <= size
    {
      if addr + size > |mem| {
        return false, 0;
      }
      hide Splice, Multiple;
      var done := 0;
      NothingErased(mem, addr, erased);
      while done < size && eraseSize <= power
        invariant done <= size && Multiple(done, eraseSize)
        invariant mem == Splice(old(mem), addr, Fill(erased, done)) && power == old(power) - done
      {
        MultipleGap(done, size, eraseSize);
        MultipleAdd(done, eraseSize, eraseSize);
        OneUnit(eraseSize);
        ErasedMore(old(mem), addr, erased, done, eraseSize);
        mem := Splice(mem, addr + done, Fill(erased, eraseSize));
        power := power - eraseSize;
        done := done + eraseSize;
      }
      ok, n := done == size, done;
      if !ok {
        MultipleGap(done, size, eraseSize);
        power := 0;
      }
    }
  }

  lemma NothingErased(mem: Bytes, addr: nat, erased: byte)
    requires addr <= |mem|
    ensures Splice(mem, addr, Fill(erased, 0)) == mem
  {}

  lemma OneUnit(d: nat)
    requires d > 0
    ensures Multiple(d, d) && Multiple(0, d)
  {}

  lemma ErasedMore(mem: Bytes, addr: nat, erased: byte, done: nat, n: nat)
    requires addr + done + n <= |mem|
    ensures Splice(Splice(mem, addr, Fill(erased, done)), addr + done, Fill(erased, n))
         == Splice(mem, addr, Fill(erased, done + n))
  {
    hide Splice;
    SpliceTwice(mem, addr, Fill(erased, done), Fill(erased, n));
    assert Fill(erased, done) + Fill(erased, n) == Fill(erased, done + n);
  }
}
