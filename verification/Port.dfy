/**
 * The port as it is written: a context of nullable buffers, an allocator, a device with sessions,
 * and handlers that update them in place. Every handler is proved to take the step `Machine`
 * gives, for every allocation and device outcome; the device is open and the session is the right
 * one at every device call, and every buffer freed is live.
 */
module Port {
  import opened Bytes
  import opened Cbc
  import opened Machine

  // ----- Comparing keys

  lemma OrOfXor(d: byte, a: byte, b: byte)
    ensures d | (a ^ b) == 0 <==> d == 0 && a == b
  {}

  /** `const_time_memcmp`: the accumulator is zero exactly when no byte differs. */
  method ConstTimeMemcmp(a: array<byte>, b: array<byte>, len: nat) returns (diff: byte)
    requires len <= a.Length && len <= b.Length
    ensures diff == 0 <==> a[..len] == b[..len]
  {
    diff := 0;
    for i := 0 to len
      invariant diff == 0 <==> a[..i] == b[..i]
    {
      OrOfXor(diff, a[i], b[i]);
      diff := diff | (a[i] ^ b[i]);
      assert a[..i + 1] == a[..i] + [a[i]] && b[..i + 1] == b[..i] + [b[i]];
    }
  }

  // ----- The allocator

  /** Whether an allocation succeeds is the environment's choice; what is live is tracked. */
  class Allocator {
    ghost var live: set<array<byte>>
    ghost var allocs: nat
    ghost var frees: nat

    constructor ()
      ensures live == {} && allocs == 0 && frees == 0
    {
      live, allocs, frees := {}, 0, 0;
    }

    ghost function View(): Ledger reads this { Ledger(allocs, frees) }

    method Malloc(n: nat, ok: bool) returns (p: array?<byte>)
      modifies this
      ensures !ok ==> p == null && live == old(live) && View() == old(View())
      ensures ok ==> p != null && fresh(p) && p.Length == n && live == old(live) + {p}
      ensures ok ==> allocs == old(allocs) + 1 && frees == old(frees)
    {
      p := null;
      if ok {
        p := new byte[n];
        live, allocs := live + {p}, allocs + 1;
      }
    }

    /** Only a live buffer may be freed, so nothing is freed twice. */
    method Free(p: array<byte>)
      requires p in live
      modifies this
      ensures live == old(live) - {p} && allocs == old(allocs) && frees == old(frees) + 1
    {
      live, frees := live - {p}, frees + 1;
    }

    method Realloc(p: array<byte>, n: nat, ok: bool) returns (r: array?<byte>)
      requires p in live && p.Length <= n
      modifies this
      ensures !ok ==> r == null && live == old(live) && View() == old(View())
      ensures ok ==> r != null && fresh(r) && r.Length == n && r[..p.Length] == p[..]
      ensures ok ==> live == old(live) - {p} + {r} && allocs == old(allocs) + 1 && frees == old(frees) + 1
    {
      r := null;
      if ok {
        r := new byte[n];
        forall i | 0 <= i < p.Length { r[i] := p[i]; }
        live, allocs, frees := live - {p} + {r}, allocs + 1, frees + 1;
      }
    }
  }

  method CopyInto(dst: array<byte>, at: nat, src: array<byte>, from: nat, n: nat)
    requires at + n <= dst.Length && from + n <= src.Length && dst != src
    modifies dst
    ensures dst[..] == old(dst[..at]) + src[from..from + n] + old(dst[at + n..])
  {
    forall i | 0 <= i < n { dst[at + i] := src[from + i]; }
  }

  // ----- The device

  datatype Algorithm = AesCbcAlgorithm | RawRsaAlgorithm

  datatype Session =
    | NoSession
    | Digesting(message: seq<byte>)
    | Ciphering(algorithm: Algorithm, encrypt: bool, key: Option<KeyObject>, iv: Block)

  /** What a cipher session writes; outside the device's contract, `junk`. */
  function SessionOutput(suite: Suite, t: Session, input: seq<byte>, junk: seq<byte>): (r: seq<byte>)
    ensures |r| == |input|
  {
    if t.Ciphering? && t.key.Some? then
      match (t.algorithm, t.key.value)
      case (AesCbcAlgorithm, AesKey(key)) =>
        if Whole(input) then Crypt(suite, t.encrypt, key, t.iv, input) else Fit(junk, |input|)
      case (RawRsaAlgorithm, RsaPublicKey(n, e)) => RawRsa(suite, n, e, input, junk)
      case _ => Fit(junk, |input|)
    else Fit(junk, |input|)
  }

  lemma AesSessionOutput(suite: Suite, slots: Slots, encrypt: bool, iv: Block, input: seq<byte>, junk: seq<byte>)
    ensures SessionOutput(suite,
              Ciphering(AesCbcAlgorithm, encrypt, if TMP_AES in slots then Some(slots[TMP_AES]) else None, iv), input, junk)
            == DeviceCrypt(suite, slots, encrypt, iv, input, junk)
  {}

  const IV_UNUSED: Block := Fit([], 16)

  lemma RsaSessionOutput(suite: Suite, slots: Slots, input: seq<byte>, junk: seq<byte>)
    ensures SessionOutput(suite,
              Ciphering(RawRsaAlgorithm, true, if TMP_RSA in slots then Some(slots[TMP_RSA]) else None, IV_UNUSED), input, junk)
            == DeviceRsa(suite, slots, input, junk)
  {}

  /** Every call takes the return code the environment chose; all but opening need an open device. */
  class Device {
    const suite: Suite
    var isOpen: bool
    var slots: Slots
    var session: Session
    ghost var opens: nat
    ghost var closes: nat

    constructor (suite: Suite)
      ensures this.suite == suite && View() == Dev(false, map[], 0, 0)
    {
      this.suite := suite;
      isOpen, slots, session, opens, closes := false, map[], NoSession, 0, 0;
    }

    ghost function View(): Dev reads this { Dev(isOpen, slots, opens, closes) }

    method Open(rc: VltRc, found: Slots)
      requires !isOpen
      modifies this
      ensures View() == if Good(rc) then Dev(true, found, old(opens) + 1, closes) else old(View())
      ensures closes == old(closes)
    {
      if Good(rc) {
        isOpen, slots, session, opens := true, found, NoSession, opens + 1;
      }
    }

    method Close()
      requires isOpen
      modifies this
      ensures View() == old(View()).(isOpen := false, closes := old(closes) + 1)
    {
      isOpen, session, closes := false, NoSession, closes + 1;
    }

    method Delete(slot: Slot, rc: VltRc)
      requires isOpen
      modifies this
      ensures View() == old(View()).(slots := DeleteKey(old(slots), slot, rc))
    {
      if Good(rc) { slots := slots - {slot}; }
    }

    method Put(slot: Slot, key: KeyObject, rc: VltRc)
      requires isOpen
      modifies this
      ensures View() == old(View()).(slots := PutKey(old(slots), slot, key, rc))
    {
      if Good(rc) { slots := slots[slot := key]; }
    }

    method StartDigest(rc: VltRc)
      requires isOpen
      modifies this
      ensures View() == old(View()) && (Good(rc) ==> session == Digesting([]))
    {
      session := if Good(rc) then Digesting([]) else NoSession;
    }

    /** The session works with the key the slot holds now. */
    method StartCipher(algorithm: Algorithm, slot: Slot, encrypt: bool, iv: Block, rc: VltRc)
      requires isOpen
      modifies this
      ensures View() == old(View())
      ensures Good(rc) ==>
        session == Ciphering(algorithm, encrypt, if slot in slots then Some(slots[slot]) else None, iv)
    {
      session := if Good(rc) then Ciphering(algorithm, encrypt, if slot in slots then Some(slots[slot]) else None, iv)
                 else NoSession;
    }

    method UpdateDigest(p: array?<byte>, len: nat, rc: VltRc)
      requires isOpen && session.Digesting? && (if p == null then len == 0 else len <= p.Length)
      modifies this
      ensures View() == old(View())
      ensures Good(rc) ==> session == Digesting(old(session.message) + if p == null then [] else p[..len])
    {
      if Good(rc) && p != null { session := Digesting(session.message + p[..len]); }
      else if Good(rc) { session := Digesting(session.message + []); }
    }

    method FinishDigest(digest: array<byte>, rc: VltRc, junk: seq<byte>)
      requires isOpen && session.Digesting? && digest.Length == 32
      modifies this, digest
      ensures View() == old(View())
      ensures digest[..] == if Good(rc) then suite.H(old(session.message)) else Fit(junk, 32)
    {
      var r: seq<byte> := if Good(rc) then suite.H(session.message) else Fit(junk, 32);
      forall i | 0 <= i < 32 { digest[i] := r[i]; }
      session := NoSession;
    }

    method ComputeDigest(p: array<byte>, len: nat, digest: array<byte>, rc: VltRc, junk: seq<byte>)
      requires isOpen && session == Digesting([]) && len <= p.Length && digest.Length == 32 && digest != p
      modifies this, digest
      ensures View() == old(View())
      ensures digest[..] == if Good(rc) then suite.H(p[..len]) else Fit(junk, 32)
    {
      var r: seq<byte> := if Good(rc) then suite.H(p[..len]) else Fit(junk, 32);
      ghost var message := p[..len];
      forall i | 0 <= i < 32 { digest[i] := r[i]; }
      assert p[..len] == message && digest[..] == r;
      session := NoSession;
    }

    /** `VltEncrypt` and `VltDecrypt`: the whole input is read before the output is written. */
    method Process(encrypt: bool, mem: array<byte>, inOff: nat, outOff: nat, sz: nat, rc: VltRc, junk: seq<byte>)
      requires isOpen && session.Ciphering? && session.encrypt == encrypt
      requires inOff + sz <= mem.Length && outOff + sz <= mem.Length
      modifies this, mem
      ensures View() == old(View())
      ensures mem[..] == Splice(old(mem[..]), outOff,
        if Good(rc) then SessionOutput(suite, old(session), old(mem[inOff..inOff + sz]), junk) else Fit(junk, sz))
    {
      var r := if Good(rc) then SessionOutput(suite, session, mem[inOff..inOff + sz], junk) else Fit(junk, sz);
      ghost var was := mem[..];
      forall i | 0 <= i < sz { mem[outOff + i] := r[i]; }
      assert mem[..] == was[..outOff] + r + was[outOff + sz..];
      session := NoSession;
    }
  }

  // ----- wolfCrypt's Aes object

  class Aes {
    const devKey: array<byte>
    var keylen: nat
    const reg: array<byte>

    ghost predicate Valid() reads this { keylen <= devKey.Length && reg.Length == 16 && devKey != reg }

    ghost function View(): AesObject
      requires Valid()
      reads this, devKey, reg
    {
      AesObject(devKey[..keylen], reg[..])
    }

    /** Copy one block of caller memory into the register. */
    method Chain(mem: array<byte>, off: nat)
      requires Valid() && off + 16 <= mem.Length && mem != reg && mem != devKey
      modifies reg
      ensures View() == old(View()).(reg := mem[..][off..off + 16])
    {
      CopyInto(reg, 0, mem, off, 16);
      assert reg[..] == mem[..][off..off + 16];
    }

    constructor (key: array<byte>, iv: array<byte>)
      requires iv.Length == 16
      ensures Valid() && fresh(devKey) && fresh(reg) && View() == AesObject(key[..], iv[..])
    {
      devKey := new byte[key.Length](i requires 0 <= i < key.Length reads key => key[i]);
      keylen := key.Length;
      reg := new byte[16](i requires 0 <= i < 16 && iv.Length == 16 reads iv => iv[i]);
      new;
      assert devKey[..keylen] == key[..] && reg[..] == iv[..];
    }
  }

  /** The device call whose code ends a cipher request. */
  function LastCall(env: Env): VltRc { if Good(env.algoRc) then env.opRc else env.algoRc }

  /** Caller memory after the device calls of a cipher request. */
  function MemoryAfter(suite: Suite, slots: Slots, iv: Block, q: CipherRequest, env: Env): seq<byte>
    requires q.InBounds()
  {
    if !Good(env.algoRc) then q.mem
    else Splice(q.mem, q.outOff,
      if Good(env.opRc) then DeviceCrypt(suite, slots, q.encrypt, iv, q.Input(), env.junk) else Fit(env.junk, q.sz))
  }

  lemma RunCipherParts(suite: Suite, k: Core, a: AesObject, q: CipherRequest, env: Env)
    requires q.InBounds() && q.Blocks() > 0
    ensures |MemoryAfter(suite, k.dev.slots, a.reg, q, env)| == |q.mem|
    ensures var mem := MemoryAfter(suite, k.dev.slots, a.reg, q, env);
      Machine.RunCipher(suite, k, a, q, env) ==
        CipherOutcome(k.(ctx := k.ctx.(vltRc := LastCall(env))),
                      if Good(LastCall(env)) then a.(reg := mem[LastBlock(q)..LastBlock(q) + 16]) else a,
                      Reply(TranslateError(LastCall(env)), mem, None))
  {}

  // ----- The context

  class Context {
    const dev: Device
    const heap: Allocator
    var initialized: nat
    var vltRc: VltRc
    var hashType: HashType
    var m: array?<byte>
    var mLen: nat
    var aesKey: array?<byte>
    var aesKeyLen: nat

    /** `CCBVAULTIC_CONTEXT_INITIALIZER`. */
    constructor (dev: Device, heap: Allocator)
      requires !dev.isOpen
      ensures this.dev == dev && this.heap == heap && Valid()
      ensures View() == Core(CLEARED, dev.View(), heap.View())
    {
      this.dev, this.heap := dev, heap;
      initialized, vltRc, hashType, m, mLen, aesKey, aesKeyLen := 0, VltZero, NoHash, null, 0, null, 0;
    }

    ghost function Owned(): set<array<byte>> reads this {
      (if m == null then {} else {m}) + (if aesKey == null then {} else {aesKey})
    }

    ghost predicate Valid() reads this, dev, heap {
      && Owned() <= heap.live
      && (if m == null then mLen == 0 else mLen == m.Length)
      && (if aesKey == null then aesKeyLen == 0 else aesKeyLen == aesKey.Length)
      && (m != null ==> m != aesKey)
      && (hashType != Sha256 ==> m == null)
      && (initialized == 0 ==> m == null && aesKey == null && hashType == NoHash)
      && (dev.isOpen <==> initialized > 0)
    }

    ghost function View(): Core
      requires Valid()
      reads this, dev, heap, m, aesKey
    {
      Core(Ctx(initialized, vltRc, hashType,
               if m == null then None else Some(m[..mLen]),
               if aesKey == null then None else Some(aesKey[..aesKeyLen])),
           dev.View(), heap.View())
    }

    /** Live buffers the context does not own; no handler touches them. */
    ghost function Foreign(): set<array<byte>> reads this, heap { heap.live - Owned() }

    method Clear()
      modifies this
      ensures initialized == 0 && vltRc == VltZero && hashType == NoHash
      ensures m == null && mLen == 0 && aesKey == null && aesKeyLen == 0
    {
      initialized, vltRc, hashType, m, mLen, aesKey, aesKeyLen := 0, VltZero, NoHash, null, 0, null, 0;
    }

    method Init(env: Env) returns (rc: Rc)
      requires Valid()
      modifies this, dev
      ensures Valid() && (View(), rc) == InitStep(old(View()), env)
      ensures Foreign() == old(Foreign())
    {
      if initialized > 0 {
        initialized := initialized + 1;
        return Success;
      }
      Clear();
      dev.Open(env.openRc, env.found);
      vltRc := env.openRc;
      rc := TranslateError(vltRc);
      if rc == Success {
        initialized := 1;
      } else {
        rc := InitError;
      }
    }

    method Cleanup(env: Env)
      requires Valid()
      modifies this, dev, heap
      ensures Valid() && View() == CleanupStep(old(View()), env)
      ensures Foreign() == old(Foreign())
    {
      if initialized == 0 { return; }
      initialized := initialized - 1;
      if initialized > 0 { return; }
      if m != null { heap.Free(m); }
      if aesKey != null { heap.Free(aesKey); }
      Clear();
      dev.Close();
      vltRc := env.closeRc;
    }

    // ----- SHA-256

    method DropMessage(next: HashType)
      requires Valid() && initialized > 0
      modifies this, heap
      ensures Valid() && View() == Machine.DropMessage(old(View()), next)
      ensures m == null && aesKey == old(aesKey) && Foreign() == old(Foreign()) && heap.live <= old(heap.live)
    {
      if m != null { heap.Free(m); }
      m, mLen, hashType := null, 0, next;
    }

    /** Append a request's bytes to the message, growing the buffer; `ok` is false if memory ran out. */
    method Buffer(input: array<byte>, inSz: nat, env: Env) returns (ok: bool)
      requires Valid() && initialized > 0 && hashType == Sha256
      requires 0 < inSz <= input.Length && input !in heap.live
      modifies this, heap
      ensures Valid() && ok == env.alloc && hashType == Sha256
      ensures View() == if ok then Append(old(View()), input[..inSz]) else old(View())
      ensures Foreign() == old(Foreign()) && aesKey == old(aesKey)
      ensures forall p :: p in heap.live ==> p in old(heap.live) || fresh(p)
    {
      ghost var was := Buffered(View().ctx);
      if m == null {
        var p := heap.Malloc(inSz, env.alloc);
        if p == null { return false; }
        m, mLen := p, 0;
      } else {
        var p := heap.Realloc(m, mLen + inSz, env.alloc);
        if p == null { return false; }
        m := p;
      }
      assert m[..mLen] == was && m.Length == mLen + inSz;
      CopyInto(m, mLen, input, 0, inSz);
      assert m[..] == was + input[..inSz] && m[..] == m[..mLen + inSz];
      mLen := mLen + inSz;
      return true;
    }

    /** The device calls of a finalize; two steps when nothing is buffered. */
    method Digest(digest: array<byte>, env: Env) returns (rc: Rc)
      requires Valid() && initialized > 0 && hashType == Sha256
      requires digest.Length == 32 && digest !in heap.live
      modifies this, dev, digest
      ensures Valid() && m == old(m) && aesKey == old(aesKey) && hashType == old(hashType)
      ensures View() == old(View()).(ctx := old(View()).ctx.(vltRc := FinalizeRc(old(View()), env)))
      ensures rc == TranslateError(FinalizeRc(old(View()), env))
      ensures digest[..] ==
        if rc == Success then dev.suite.H(Buffered(old(View()).ctx))
        else if DigestWritten(old(View()), env) then Fit(env.junk, 32)
        else old(digest[..])
    {
      dev.StartDigest(env.algoRc);
      vltRc := env.algoRc;
      rc := TranslateError(vltRc);
      if rc != Success { return; }
      if m == null {
        dev.UpdateDigest(m, mLen, env.updateRc);
        vltRc := env.updateRc;
        rc := TranslateError(vltRc);
        if rc != Success { return; }
        assert dev.session == Digesting([]);
        dev.FinishDigest(digest, env.opRc, env.junk);
        vltRc := env.opRc;
        rc := TranslateError(vltRc);
      } else {
        dev.ComputeDigest(m, mLen, digest, env.opRc, env.junk);
        vltRc := env.opRc;
        rc := TranslateError(vltRc);
      }
    }

    /** A finalize: the digest, and the state dropped unless the hash is a copy. */
    method Finalize(digest: array<byte>, sha256: Option<ShaObject>, env: Env) returns (rc: Rc)
      requires Valid() && initialized > 0 && hashType == Sha256
      requires digest.Length == 32 && digest !in heap.live
      modifies this, dev, heap, digest
      ensures Valid() && Foreign() == old(Foreign()) && heap.live <= old(heap.live)
      ensures forall q: HashRequest {:trigger FinalizeStep(dev.suite, old(View()), q, env)} ::
        q.digest == Some(old(digest[..])) && q.sha256 == sha256 ==>
          var o := FinalizeStep(dev.suite, old(View()), q, env);
          View() == o.core && rc == o.reply.rc && digest[..] == o.reply.out
    {
      rc := Digest(digest, env);
      if rc != Success { return; }
      if sha256.None? || !sha256.value.isCopy {
        DropMessage(NoHash);
      }
    }

    static ghost function HashView(hashType: HashType, input: array?<byte>, inSz: nat, digest: array?<byte>,
                                   sha256: Option<ShaObject>): HashRequest
      requires input != null ==> inSz <= input.Length
      reads input, digest
    {
      HashRequest(hashType, if input == null then None else Some(input[..inSz]),
                  if digest == null then None else Some(digest[..]), sha256)
    }

    method HandleHash(requested: HashType, input: array?<byte>, inSz: nat, digest: array?<byte>,
                      sha256: Option<ShaObject>, env: Env) returns (rc: Rc)
      requires Valid() && initialized > 0
      requires input != null ==> inSz <= input.Length && input !in heap.live
      requires digest != null ==> digest.Length == 32 && digest !in heap.live
      modifies this, dev, heap, digest
      ensures Valid() && Foreign() == old(Foreign())
      ensures forall p :: p in heap.live ==> p in old(heap.live) || fresh(p)
      ensures var o := HashStep(dev.suite, old(View()), old(HashView(requested, input, inSz, digest, sha256)), env);
        View() == o.core && rc == o.reply.rc && (digest != null ==> digest[..] == o.reply.out)
    {
      rc := Unavailable;
      if requested != Sha256 { return; }
      ghost var k, q := View(), HashView(requested, input, inSz, digest, sha256);
      if hashType != requested {
        DropMessage(requested);
      }
      assert View() == SelectHash(k);
      if input != null && inSz > 0 {
        var ok := Buffer(input, inSz, env);
        if !ok { return MemoryError; }
        rc := Success;
      }
      if digest != null {
        rc := Finalize(digest, sha256, env);
      }
    }

    // ----- AES-128-CBC

    /** The cache test of the cipher handler: no key cached, another length, or some byte differs. */
    method CacheMiss(aes: Aes) returns (miss: bool)
      requires Valid() && aes.Valid()
      ensures miss <==> View().ctx.aesKey != Some(aes.View().key)
    {
      if aesKey == null || aesKeyLen != aes.keylen {
        assert aesKey != null ==> |aesKey[..aesKeyLen]| != |aes.devKey[..aes.keylen]|;
        return true;
      }
      var diff := ConstTimeMemcmp(aesKey, aes.devKey, aes.keylen);
      return diff != 0;
    }

    method UploadAes(key: seq<byte>, env: Env) returns (rc: Rc)
      requires Valid() && initialized > 0
      modifies this, dev
      ensures Valid() && m == old(m) && aesKey == old(aesKey) && rc == TranslateError(env.putRc)
      ensures var k := old(View());
        View() == k.(ctx := k.ctx.(vltRc := env.putRc),
                     dev := k.dev.(slots := PutKey(DeleteKey(k.dev.slots, TMP_AES, env.deleteRc), TMP_AES,
                                                   AesKey(key), env.putRc)))
    {
      dev.Delete(TMP_AES, env.deleteRc);
      dev.Put(TMP_AES, AesKey(key), env.putRc);
      vltRc := env.putRc;
      rc := TranslateError(vltRc);
    }

    /** The refill on a miss: free, allocate, copy, and only then delete and put on the device. */
    method Refill(aes: Aes, env: Env) returns (rc: Rc)
      requires Valid() && initialized > 0 && aes.Valid() && aes.devKey !in heap.live
      requires View().ctx.aesKey != Some(aes.View().key)
      modifies this, dev, heap
      ensures Valid() && Foreign() == old(Foreign()) && (View(), rc) == RefreshKey(old(View()), old(aes.View().key), env)
      ensures initialized == old(initialized)
      ensures forall p :: p in heap.live ==> p in old(heap.live) || fresh(p)
    {
      if aesKey != null {
        heap.Free(aesKey);
        aesKey, aesKeyLen := null, 0;
      }
      aesKey := heap.Malloc(aes.keylen, env.alloc);
      if aesKey == null { return Unavailable; }
      aesKeyLen := aes.keylen;
      CopyInto(aesKey, 0, aes.devKey, 0, aes.keylen);
      assert aesKey[..aesKeyLen] == aes.devKey[..aes.keylen];
      rc := UploadAes(aesKey[..aesKeyLen], env);
    }

    /** The object's key cached, refilled only if the test says so. */
    method CacheKey(aes: Aes, env: Env) returns (rc: Rc)
      requires Valid() && initialized > 0 && aes.Valid() && aes.devKey !in heap.live
      modifies this, dev, heap
      ensures Valid() && Foreign() == old(Foreign()) && (View(), rc) == RefreshKey(old(View()), old(aes.View().key), env)
      ensures initialized == old(initialized)
      ensures forall p :: p in heap.live ==> p in old(heap.live) || fresh(p)
    {
      var miss := CacheMiss(aes);
      if miss {
        hide RefreshKey;
        rc := Refill(aes, env);
      } else {
        rc := Success;
      }
    }

    /** The device calls of a cipher request; the object is not touched. */
    method CallCipher(iv: Block, encrypt: bool, mem: array<byte>, inOff: nat, outOff: nat, sz: nat, env: Env)
      returns (rc: Rc)
      requires Valid() && initialized > 0 && mem !in heap.live
      requires inOff + sz <= mem.Length && outOff + sz <= mem.Length
      modifies this, dev, mem
      ensures Valid() && m == old(m) && aesKey == old(aesKey)
      ensures View() == old(View()).(ctx := old(View()).ctx.(vltRc := LastCall(env))) && rc == TranslateError(LastCall(env))
      ensures mem[..] ==
        MemoryAfter(dev.suite, old(dev.slots), iv, CipherRequest(0, encrypt, old(mem[..]), inOff, outOff, sz), env)
    {
      hide Splice, Fit, DeviceCrypt, SessionOutput;
      assert mem[..][inOff..inOff + sz] == mem[inOff..inOff + sz];
      dev.StartCipher(AesCbcAlgorithm, TMP_AES, encrypt, iv, env.algoRc);
      vltRc := env.algoRc;
      rc := TranslateError(vltRc);
      if rc != Success { return; }
      AesSessionOutput(dev.suite, dev.slots, encrypt, iv, mem[inOff..inOff + sz], env.junk);
      dev.Process(encrypt, mem, inOff, outOff, sz, env.opRc, env.junk);
      vltRc := env.opRc;
      rc := TranslateError(vltRc);
    }

    /** Caller memory, the object's buffers and the allocator's buffers do not overlap. */
    ghost predicate Separate(aes: Aes, mem: array<byte>) reads this, heap {
      && mem !in heap.live && aes.devKey !in heap.live && aes.reg !in heap.live
      && mem != aes.devKey && mem != aes.reg
    }

    /** The rest of the handler once the key is in place: the device calls, then the register. */
    method RunCipher(aes: Aes, encrypt: bool, mem: array<byte>, inOff: nat, outOff: nat, sz: nat, env: Env)
      returns (rc: Rc)
      requires Valid() && initialized > 0 && aes.Valid() && sz >= 16
      requires inOff + sz <= mem.Length && outOff + sz <= mem.Length
      requires Separate(aes, mem)
      modifies this, dev, mem, aes.reg
      ensures Valid() && aes.Valid() && m == old(m) && aesKey == old(aesKey)
      ensures View() == old(View()).(ctx := old(View()).ctx.(vltRc := LastCall(env))) && rc == TranslateError(LastCall(env))
      ensures var q := CipherRequest(0, encrypt, old(mem[..]), inOff, outOff, sz);
        && mem[..] == MemoryAfter(dev.suite, old(dev.slots), old(aes.reg[..]), q, env)
        && aes.View() == if rc == Success then old(aes.View()).(reg := mem[..][LastBlock(q)..LastBlock(q) + 16])
                         else old(aes.View())
    {
      var lastBlock := (if encrypt then outOff else inOff) + (sz / 16 - 1) * 16;
      hide MemoryAfter;
      rc := CallCipher(aes.reg[..], encrypt, mem, inOff, outOff, sz, env);
      if rc != Success { return; }
      assert aes.reg !in Owned();
      aes.Chain(mem, lastBlock);
    }

    method HandleCipher(aes: Aes, encrypt: bool, mem: array<byte>, inOff: nat, outOff: nat, sz: nat, env: Env)
      returns (rc: Rc)
      requires Valid() && initialized > 0 && aes.Valid()
      requires inOff + sz <= mem.Length && outOff + sz <= mem.Length
      requires Separate(aes, mem)
      modifies this, dev, heap, mem, aes.reg
      ensures Valid() && aes.Valid() && Foreign() == old(Foreign())
      ensures forall p :: p in heap.live ==> p in old(heap.live) || fresh(p)
      ensures var q := CipherRequest(0, encrypt, old(mem[..]), inOff, outOff, sz);
        var o := CipherStep(dev.suite, old(View()), old(aes.View()), q, env);
        View() == o.core && aes.View() == o.aes && rc == o.reply.rc && mem[..] == o.reply.out
    {
      if aes.keylen != 16 { return Unavailable; }
      if sz / 16 == 0 { return Success; }
      hide Machine.RunCipher, Machine.RefreshKey, MemoryAfter;
      rc := CacheKey(aes, env);
      if rc != Success { return; }
      RunCipherParts(dev.suite, View(), aes.View(), CipherRequest(0, encrypt, mem[..], inOff, outOff, sz), env);
      rc := RunCipher(aes, encrypt, mem, inOff, outOff, sz, env);
    }

    // ----- RSA public operation

    /** The exponent copied to the end of a zeroed four-byte buffer. */
    method Pad(e: seq<byte>) returns (padded: seq<byte>)
      requires |e| <= 4
      ensures padded == PadExponent(e)
    {
      var buffer := new byte[4](_ => 0);
      forall i | 0 <= i < |e| { buffer[4 - |e| + i] := e[i]; }
      padded := buffer[..];
    }

    method UploadRsa(n: seq<byte>, e: seq<byte>, env: Env) returns (rc: Rc)
      requires Valid() && initialized > 0
      modifies this, dev
      ensures Valid() && m == old(m) && aesKey == old(aesKey) && rc == TranslateError(env.putRc)
      ensures View() == Machine.UploadRsa(old(View()), n, e, env)
    {
      dev.Delete(TMP_RSA, env.deleteRc);
      dev.Put(TMP_RSA, RsaPublicKey(n, e), env.putRc);
      vltRc := env.putRc;
      rc := TranslateError(vltRc);
    }

    method CallRsa(mem: array<byte>, inOff: nat, outOff: nat, inLen: nat, outLen: Option<nat>, env: Env)
      returns (rc: Rc, newLen: Option<nat>)
      requires Valid() && initialized > 0 && mem !in heap.live
      requires inOff + inLen <= mem.Length && outOff + inLen <= mem.Length
      modifies this, dev, mem
      ensures Valid() && m == old(m) && aesKey == old(aesKey)
      ensures View() == old(View()).(ctx := old(View()).ctx.(vltRc := LastCall(env))) && rc == TranslateError(LastCall(env))
      ensures mem[..] ==
        if !Good(env.algoRc) then old(mem[..])
        else Splice(old(mem[..]), outOff,
          if Good(env.opRc) then DeviceRsa(dev.suite, old(dev.slots), old(mem[inOff..inOff + inLen]), env.junk)
          else Fit(env.junk, inLen))
      ensures newLen ==
        if !Good(env.algoRc) || outLen.None? then outLen
        else Some(if Good(env.opRc) then inLen else env.produced)
    {
      hide Splice, Fit, DeviceRsa, SessionOutput;
      newLen := outLen;
      dev.StartCipher(RawRsaAlgorithm, TMP_RSA, true, IV_UNUSED, env.algoRc);
      vltRc := env.algoRc;
      rc := TranslateError(vltRc);
      if rc != Success { return; }
      RsaSessionOutput(dev.suite, dev.slots, mem[inOff..inOff + inLen], env.junk);
      dev.Process(true, mem, inOff, outOff, inLen, env.opRc, env.junk);
      vltRc := env.opRc;
      if outLen.Some? {
        newLen := Some(if Good(env.opRc) then inLen else env.produced);
      }
      rc := TranslateError(vltRc);
    }

    method HandleRsa(kind: RsaKind, key: RsaKey, mem: array<byte>, inOff: nat, outOff: nat, inLen: nat,
                     outLen: Option<nat>, env: Env)
      returns (rc: Rc, newLen: Option<nat>)
      requires Valid() && initialized > 0 && mem !in heap.live
      requires inOff + inLen <= mem.Length && outOff + inLen <= mem.Length
      modifies this, dev, mem
      ensures Valid() && Foreign() == old(Foreign())
      ensures var q := RsaRequest(kind, key, old(mem[..]), inOff, outOff, inLen, outLen);
        var o := RsaStep(dev.suite, old(View()), q, env);
        View() == o.core && mem[..] == o.reply.out && rc == o.reply.rc && newLen == o.reply.outLen
    {
      newLen := outLen;
      if !kind.PublicDecrypt? && !kind.PublicEncrypt? { return Unavailable, newLen; }
      rc := ExportRc(key, env);
      if rc != Success { return; }
      ghost var q := RsaRequest(kind, key, mem[..], inOff, outOff, inLen, outLen);
      assert q.Input() == mem[inOff..inOff + inLen];
      var padded := Pad(key.e);
      rc := UploadRsa(key.n, padded, env);
      if rc != Success { return; }
      rc, newLen := CallRsa(mem, inOff, outOff, inLen, outLen, env);
    }
  }

  // ----- Entry points

  /** `ccbVaultIc_Init`: a NULL context is reported as an initialization failure. */
  method CcbInit(c: Context?, env: Env) returns (rc: Rc)
    requires c != null ==> c.Valid()
    modifies if c == null then {} else {c, c.dev as object}
    ensures c == null ==> rc == InitError
    ensures c != null ==> c.Valid() && (c.View(), rc) == InitStep(old(c.View()), env)
  {
    if c == null { return InitError; }
    rc := c.Init(env);
  }

  /** `wc_CryptoInfo`: requests by reference to the caller's buffers and objects. */
  datatype CryptoInfo =
    | CommandInfo(command: Command)
    | HashInfo(hashType: HashType, input: array?<byte>, inSz: nat, digest: array?<byte>, sha256: Option<ShaObject>)
    | AesCbcInfo(aes: Aes?, encrypt: bool, mem: array<byte>, inOff: nat, outOff: nat, sz: nat)
    | RsaInfo(kind: RsaKind, key: RsaKey, mem: array<byte>, inOff: nat, outOff: nat, inLen: nat, outLen: Option<nat>)
    | UnsupportedInfo

  ghost function AesOf(i: CryptoInfo): set<object> {
    if i.AesCbcInfo? && i.aes != null then {i.aes} else {}
  }

  ghost predicate ObjectValid(i: CryptoInfo) reads AesOf(i) {
    match i
    case AesCbcInfo(aes, _, _, _, _, _) => aes != null ==> aes.Valid()
    case _ => true
  }

  /** What the caller must provide: buffers of the stated sizes, apart from each other and from the port's. */
  ghost predicate Provided(i: CryptoInfo, c: Context)
    reads c, c.heap, AesOf(i)
  {
    match i
    case HashInfo(_, input, inSz, digest, _) =>
      && (input != null ==> inSz <= input.Length && input !in c.heap.live)
      && (digest != null ==> digest.Length == 32 && digest !in c.heap.live)
    case AesCbcInfo(aes, _, mem, inOff, outOff, sz) =>
      && inOff + sz <= mem.Length && outOff + sz <= mem.Length
      && (aes != null ==> aes.Valid() && c.Separate(aes, mem))
    case RsaInfo(_, _, mem, inOff, outOff, inLen, _) =>
      inOff + inLen <= mem.Length && outOff + inLen <= mem.Length && mem !in c.heap.live
    case _ => true
  }

  /** The buffers a request refers to. */
  ghost function Buffers(i: CryptoInfo): set<object> {
    match i
    case HashInfo(_, input, _, digest, _) =>
      (if input == null then {} else {input as object}) + (if digest == null then {} else {digest as object})
    case AesCbcInfo(aes, _, mem, _, _, _) =>
      {mem as object} + (if aes == null then {} else {aes.reg as object, aes.devKey})
    case RsaInfo(_, _, mem, _, _, _, _) => {mem as object}
    case _ => {}
  }

  /** What a request lets the port write. */
  ghost function Writable(i: CryptoInfo): set<object> {
    match i
    case HashInfo(_, _, _, digest, _) => if digest == null then {} else {digest as object}
    case AesCbcInfo(aes, _, mem, _, _, _) => {mem as object} + (if aes == null then {} else {aes.reg as object})
    case RsaInfo(_, _, mem, _, _, _, _) => {mem as object}
    case _ => {}
  }

  /** The request as a value; its `Aes` object is named 0, and 0 is absent if the pointer is NULL. */
  ghost function Value(i: CryptoInfo, c: Context): Request
    requires Provided(i, c)
    reads c, c.heap, AesOf(i), Buffers(i)
  {
    match i
    case CommandInfo(command) => Cmd(command)
    case HashInfo(hashType, input, inSz, digest, sha256) =>
      Hash(Context.HashView(hashType, input, inSz, digest, sha256))
    case AesCbcInfo(_, encrypt, mem, inOff, outOff, sz) => AesCbc(CipherRequest(0, encrypt, mem[..], inOff, outOff, sz))
    case RsaInfo(kind, key, mem, inOff, outOff, inLen, outLen) =>
      RsaPk(RsaRequest(kind, key, mem[..], inOff, outOff, inLen, outLen))
    case UnsupportedInfo => Unsupported
  }

  ghost function Objects(i: CryptoInfo): map<nat, AesObject>
    requires ObjectValid(i)
    reads AesOf(i), Buffers(i)
  {
    if i.AesCbcInfo? && i.aes != null then map[0 := i.aes.View()] else map[]
  }

  /** The context a callback works on: its own, or the static one that a register command may set up. */
  ghost function Target(c: Context?, local: Context): Context { if c == null then local else c }

  /** `HandleCmdCallback`: `registered` is the context a register command hands back. */
  method HandleCmd(command: Command, c: Context?, local: Context, env: Env) returns (rc: Rc, registered: Context?)
    requires Target(c, local).Valid()
    modifies {Target(c, local), Target(c, local).dev, Target(c, local).heap as object}
    ensures var t := Target(c, local);
      && t.Valid() && t.Foreign() == old(t.Foreign())
      && (t.View(), rc) == CommandStep(old(t.View()), c != null, command, env)
    ensures registered == if command == Register && c == null && rc == Success then local else null
  {
    rc, registered := Unavailable, null;
    match command
    case Register =>
      if c == null {
        rc := local.Init(env);
        if rc == Success { registered := local; }
      }
    case Unregister =>
      if c != null {
        c.Cleanup(env);
        rc := Success;
      }
    case OtherCommand =>
  }

  /** The machine, started from `before` on request `v`, ends in the present state with this reply. */
  ghost predicate Answers(before: State, hasCtx: bool, v: Request, env: Env,
                          i: CryptoInfo, c: Context, rc: Rc, outLen: Option<nat>)
    requires c.Valid() && Provided(i, c)
    reads c, c.dev, c.heap, c.m, c.aesKey, AesOf(i), Buffers(i)
  {
    CallbackStep(c.dev.suite, before, hasCtx, Some(v), env) ==
      (State(c.View(), Objects(i)), Reply(rc, Value(i, c).Before(), outLen))
  }

  method DispatchHash(i: CryptoInfo, c: Context, env: Env) returns (rc: Rc)
    requires c.Valid() && c.initialized > 0 && Provided(i, c) && i.HashInfo?
    modifies {c, c.dev, c.heap as object}, Writable(i)
    ensures c.Valid() && c.Foreign() == old(c.Foreign()) && Provided(i, c)
    ensures Answers(State(old(c.View()), old(Objects(i))), true, old(Value(i, c)), env, i, c, rc, None)
  {
    rc := c.HandleHash(i.hashType, i.input, i.inSz, i.digest, i.sha256, env);
  }

  lemma CipherHasNoLength(suite: Suite, k: Core, a: AesObject, q: CipherRequest, env: Env)
    requires q.InBounds()
    ensures CipherStep(suite, k, a, q, env).reply.outLen == None
  {}

  lemma CipherAnswers(suite: Suite, k: Core, a: AesObject, q: CipherRequest, env: Env)
    requires q.InBounds() && q.aes == 0 && k.ctx.initialized > 0
    ensures var o := CipherStep(suite, k, a, q, env);
      CallbackStep(suite, State(k, map[0 := a]), true, Some(AesCbc(q)), env) == (State(o.core, map[0 := o.aes]), o.reply)
  {
    hide CipherStep;
    assert forall b: AesObject :: map[0 := a][0 := b] == map[0 := b];
  }

  method DispatchCipher(i: CryptoInfo, c: Context, env: Env) returns (rc: Rc)
    requires c.Valid() && c.initialized > 0 && Provided(i, c) && i.AesCbcInfo? && i.aes != null
    modifies {c, c.dev, c.heap as object}, Writable(i)
    ensures c.Valid() && c.Foreign() == old(c.Foreign()) && Provided(i, c)
    ensures Answers(State(old(c.View()), old(Objects(i))), true, old(Value(i, c)), env, i, c, rc, None)
  {
    hide CipherStep, CallbackStep;
    ghost var q := Value(i, c).cipher;
    ghost var o := CipherStep(c.dev.suite, c.View(), i.aes.View(), q, env);
    CipherAnswers(c.dev.suite, c.View(), i.aes.View(), q, env);
    CipherHasNoLength(c.dev.suite, c.View(), i.aes.View(), q, env);
    rc := c.HandleCipher(i.aes, i.encrypt, i.mem, i.inOff, i.outOff, i.sz, env);
    assert Objects(i) == map[0 := o.aes] && Value(i, c).Before() == o.reply.out;
  }

  /** The switch over algorithms, once the context is known to be in use. */
  method Dispatch(i: CryptoInfo, c: Context, env: Env) returns (rc: Rc, outLen: Option<nat>)
    requires c.Valid() && c.initialized > 0 && Provided(i, c) && !i.CommandInfo?
    modifies {c, c.dev, c.heap as object}, Writable(i)
    ensures c.Valid() && c.Foreign() == old(c.Foreign()) && Provided(i, c)
    ensures Answers(State(old(c.View()), old(Objects(i))), true, old(Value(i, c)), env, i, c, rc, outLen)
  {
    rc, outLen := Unavailable, None;
    if i.HashInfo? {
      rc := DispatchHash(i, c, env);
    } else if i.AesCbcInfo? && i.aes == null {
      rc := BadFuncArg;
    } else if i.AesCbcInfo? {
      rc := DispatchCipher(i, c, env);
    } else if i.RsaInfo? {
      rc, outLen := c.HandleRsa(i.kind, i.key, i.mem, i.inOff, i.outOff, i.inLen, i.outLen, env);
    }
  }

  /**
   * `ccbVaultIc_CryptoCb` with `HandleCmdCallback`: on every request, the step of the machine, on
   * the context's, the device's, the allocator's, the object's and the caller's memory at once.
   */
  method CryptoCb(info: Option<CryptoInfo>, c: Context?, local: Context, env: Env)
    returns (rc: Rc, outLen: Option<nat>, registered: Context?)
    requires Target(c, local).Valid()
    requires info.Some? ==> Provided(info.value, Target(c, local))
    modifies {Target(c, local), Target(c, local).dev, Target(c, local).heap as object}
    modifies if info.Some? then Writable(info.value) else {}
    ensures Target(c, local).Valid() && Target(c, local).Foreign() == old(Target(c, local).Foreign())
    ensures info.Some? ==> Provided(info.value, Target(c, local))
    ensures info.None? ==> rc == BadFuncArg && Target(c, local).View() == old(Target(c, local).View())
    ensures info.Some? ==>
      var t, i := Target(c, local), info.value;
      Answers(State(old(t.View()), old(Objects(i))), c != null, old(Value(i, t)), env, i, t, rc, outLen)
    ensures registered == if info == Some(CommandInfo(Register)) && c == null && rc == Success then local else null
  {
    registered := null;
    outLen := if info.Some? && info.value.RsaInfo? then info.value.outLen else None;
    if info.None? || (!info.value.CommandInfo? && (c == null || c.initialized == 0)) {
      return BadFuncArg, outLen, null;
    }
    if info.value.CommandInfo? {
      rc, registered := HandleCmd(info.value.command, c, local, env);
    } else {
      rc, outLen := Dispatch(info.value, c, env);
    }
  }
}
