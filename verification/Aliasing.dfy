/** Overlapping buffers: where the next chaining register really comes from. */
module Aliasing {
  import opened Bytes
  import opened Cbc
  import opened Machine
  import opened Resources
  import opened AesRuns

  /** A request to decrypt `sz` bytes of `mem` from `inOff` to `outOff`. */
  function DecryptRequest(mem: seq<byte>, inOff: nat, outOff: nat, sz: nat): CipherRequest {
    CipherRequest(0, false, mem, inOff, outOff, sz)
  }

  /**
   * With this layout, this cipher and this key, every decrypt that a context in use completes under
   * that key leaves the last ciphertext block in the register, for every memory and register.
   */
  ghost predicate AlwaysChains(suite: Suite, key: seq<byte>, len: nat, inOff: nat, outOff: nat, sz: nat)
    requires inOff + sz <= len && outOff + sz <= len && sz >= 16
  {
    forall k: Core, a: AesObject, mem: seq<byte>, env: Env
      {:trigger CipherStep(suite, k, a, DecryptRequest(mem, inOff, outOff, sz), env)} ::
      Inv(k) && k.ctx.initialized > 0 && a.key == key && |mem| == len &&
      CipherStep(suite, k, a, DecryptRequest(mem, inOff, outOff, sz), env).reply.rc == Success &&
      SlotHolds(CipherStep(suite, k, a, DecryptRequest(mem, inOff, outOff, sz), env).core.dev.slots, key) ==>
        CipherStep(suite, k, a, DecryptRequest(mem, inOff, outOff, sz), env).aes.reg == mem[inOff + sz - 16..inOff + sz]
  }

  // ----- One plaintext byte

  lemma PlaintextByte(suite: Suite, key: seq<byte>, iv: Block, c: seq<byte>, i: nat)
    requires Whole(c) && i < |c|
    ensures var j := i / 16;
      CbcDecrypt(suite, key, iv, c)[i] == suite.D(key, BlockAt(c, j))[i % 16] ^ Previous(iv, c, j)[i % 16]
  {
    var j, p := i / 16, CbcDecrypt(suite, key, iv, c);
    DecryptIsStandard(suite, key, iv, c, p);
    assert BlockAt(p, j) == Xor(suite.D(key, BlockAt(c, j)), Previous(iv, c, j));
    assert p[i] == BlockAt(p, j)[i % 16];
  }

  function Zeros(n: nat): (r: seq<byte>)
    ensures |r| == n && forall i :: 0 <= i < n ==> r[i] == 0
  {
    seq(n, _ => 0)
  }

  lemma XorFlips(d: byte)
    ensures d ^ 0 != 0 || d ^ 1 != 0
  {}

  /**
   * For every cipher and key, any one byte of the plaintext can be made non-zero while the last
   * block of the ciphertext is all zeros: if zeros throughout do not do it, a flipped bit in the
   * block before (the register, for the first block) does.
   */
  lemma PlaintextCanDiffer(suite: Suite, key: seq<byte>, sz: nat, i: nat) returns (iv: Block, c: seq<byte>)
    requires sz % 16 == 0 && i < sz
    ensures |c| == sz && CbcDecrypt(suite, key, iv, c)[i] != 0
    ensures forall n :: sz - 16 <= n < sz ==> c[n] == 0
  {
    var j, o := i / 16, i % 16;
    iv, c := Zeros(16), Zeros(sz);
    PlaintextByte(suite, key, iv, c, i);
    if CbcDecrypt(suite, key, iv, c)[i] == 0 {
      var zeros := c;
      XorFlips(suite.D(key, BlockAt(c, j))[o]);
      if j == 0 {
        iv := iv[o := 1];
      } else {
        c := c[16 * (j - 1) + o := 1];
        assert BlockAt(c, j) == BlockAt(zeros, j);
      }
      PlaintextByte(suite, key, iv, c, i);
    }
  }

  // ----- Exactly which layouts chain

  /** A context in use with no key cached, in an environment where everything works. */
  const READY: Core := Core(Ctx(1, VltOk, NoHash, None, None), Dev(true, map[], 1, 0), Ledger(0, 0))
  const FINE: Env := Env(true, VltOk, VltOk, VltOk, VltOk, VltOk, VltOk, VltOk, map[], [], 0, Success)

  lemma DecryptOnReady(suite: Suite, a: AesObject, mem: seq<byte>, inOff: nat, outOff: nat, sz: nat)
    requires |a.key| == 16 && inOff + sz <= |mem| && outOff + sz <= |mem| && sz > 0 && sz % 16 == 0
    ensures Inv(READY)
    ensures var q := DecryptRequest(mem, inOff, outOff, sz);
      var o := CipherStep(suite, READY, a, q, FINE);
      var out := Splice(mem, outOff, CbcDecrypt(suite, a.key, a.reg, q.Input()));
      && o.reply.rc == Success && SlotHolds(o.core.dev.slots, a.key)
      && o.aes.reg == out[inOff + sz - 16..inOff + sz]
  {
    hide CbcDecrypt, Splice;
  }

  /** An overlap lets some plaintext byte land on the block kept for the register. */
  lemma OverlapBreaksChaining(suite: Suite, key: seq<byte>, len: nat, inOff: nat, outOff: nat, sz: nat)
    requires inOff + sz <= len && outOff + sz <= len && sz > 0 && sz % 16 == 0 && |key| == 16
    requires !LastInputSurvives(inOff, outOff, sz)
    ensures !AlwaysChains(suite, key, len, inOff, outOff, sz)
  {
    var at := inOff + sz - 16;
    var j := if outOff >= at then outOff else at;
    var iv, c := PlaintextCanDiffer(suite, key, sz, j - outOff);
    var mem, a := Splice(Zeros(len), inOff, c), AesObject(key, iv);
    DecryptOnReady(suite, a, mem, inOff, outOff, sz);
    var q := DecryptRequest(mem, inOff, outOff, sz);
    var o := CipherStep(suite, READY, a, q, FINE);
    var plain := CbcDecrypt(suite, key, iv, c);
    hide CipherStep, CbcDecrypt;
    assert q.Input() == c;
    assert Splice(mem, outOff, plain)[outOff..outOff + sz][j - outOff] == plain[j - outOff];
    assert o.aes.reg[j - at] == plain[j - outOff] != 0;
    assert mem[j] == mem[inOff..inOff + sz][j - inOff] == 0;
    assert mem[at..at + 16][j - at] == 0;
  }

  lemma DisjointChains(suite: Suite, k: Core, a: AesObject, q: CipherRequest, env: Env)
    requires q.InBounds() && q.sz > 0 && q.sz % 16 == 0 && !q.encrypt
    requires LastInputSurvives(q.inOff, q.outOff, q.sz)
    requires CipherStep(suite, k, a, q, env).reply.rc == Success
    ensures CipherStep(suite, k, a, q, env).aes.reg == q.mem[q.inOff + q.sz - 16..q.inOff + q.sz]
  {
    DeviceCall(suite, k, a, q, env);
    var slots := CipherStep(suite, k, a, q, env).core.dev.slots;
    LastBlockSurvives(q, DeviceCrypt(suite, slots, q.encrypt, a.reg, q.Input(), env.junk));
  }

  /** For every cipher and every key, exactly the layouts whose last input block is not written over chain correctly. */
  lemma DecryptChainsExactly(suite: Suite, key: seq<byte>, len: nat, inOff: nat, outOff: nat, sz: nat)
    requires inOff + sz <= len && outOff + sz <= len && sz > 0 && sz % 16 == 0 && |key| == 16
    ensures AlwaysChains(suite, key, len, inOff, outOff, sz) <==> LastInputSurvives(inOff, outOff, sz)
  {
    if LastInputSurvives(inOff, outOff, sz) {
      forall k: Core, a: AesObject, mem: seq<byte>, env: Env
        | |mem| == len && CipherStep(suite, k, a, DecryptRequest(mem, inOff, outOff, sz), env).reply.rc == Success
        ensures CipherStep(suite, k, a, DecryptRequest(mem, inOff, outOff, sz), env).aes.reg ==
                mem[inOff + sz - 16..inOff + sz]
      {
        DisjointChains(suite, k, a, DecryptRequest(mem, inOff, outOff, sz), env);
      }
    } else {
      OverlapBreaksChaining(suite, key, len, inOff, outOff, sz);
    }
  }

  /**
   * In place, for every block count and whether or not the key had to be uploaded: the output is
   * right in both directions, encryption leaves the last ciphertext block in the register, and
   * decryption leaves the last plaintext block.
   */
  lemma InPlaceRegister(suite: Suite, k: Core, a: AesObject, q: CipherRequest, env: Env)
    requires q.InBounds() && q.inOff == q.outOff && q.sz > 0 && q.sz % 16 == 0
    requires CipherStep(suite, k, a, q, env).reply.rc == Success
    requires SlotHolds(CipherStep(suite, k, a, q, env).core.dev.slots, a.key)
    ensures var o := CipherStep(suite, k, a, q, env);
      var written := Crypt(suite, q.encrypt, a.key, a.reg, q.Input());
      && o.reply.out == Splice(q.mem, q.outOff, written)
      && o.aes.reg == written[q.sz - 16..]
  {
    DeviceCall(suite, k, a, q, env);
    hide CipherStep, Crypt;
    var written := Crypt(suite, q.encrypt, a.key, a.reg, q.Input());
    var out := Splice(q.mem, q.outOff, written);
    assert out[q.outOff..q.outOff + q.sz] == written;
    assert written[q.sz - 16..] == out[LastBlock(q)..LastBlock(q) + 16];
  }
}
