/**
 * What a callback is answered, for every request, context and outcome of the environment, written
 * out in the vendor's and wolfCrypt's codes: the return code, the code recorded in the context, and
 * what the call may and may not have changed.
 */
module Answers {
  import opened Bytes
  import opened Cbc
  import opened Machine
  import opened Resources
  import opened AesRuns

  /** The key objects of the port: group 0xBB, 1 for AES and 3 for RSA. */
  predicate SameSlotsBut(before: Slots, after: Slots, group: int, id: int) {
    before - {Slot(group, id)} == after - {Slot(group, id)}
  }

  /** Nothing outside `[off, off + n)` differs. */
  predicate SameOutside(before: seq<byte>, after: seq<byte>, off: nat, n: nat) {
    |after| == |before| && forall i :: 0 <= i < |before| && !(off <= i < off + n) ==> after[i] == before[i]
  }

  /** A put that failed left the slot as the delete before it left it. */
  predicate DeletedOnly(before: Slots, after: Slots, slot: Slot, deleteRc: VltRc) {
    after == if Ok(deleteRc) then before - {slot} else before
  }

  // ----- The dispatcher

  /**
   * Requests answered without a handler: a missing request or a request on a missing or unused
   * context is an argument error; register with a context, unregister without one, other commands
   * and unsupported algorithms are declined. Nothing changes. Unregister with a context succeeds.
   */
  lemma DispatchCodes(suite: Suite, s: State, hasCtx: bool, info: Option<Request>, env: Env)
    ensures var (t, r) := CallbackStep(suite, s, hasCtx, info, env);
      && (info == None ==> r.rc == BadFuncArg && t == s)
      && (info.Some? && !info.value.Cmd? && (!hasCtx || s.core.ctx.initialized == 0) ==> r.rc == BadFuncArg && t == s)
      && (info == Some(Cmd(Register)) && hasCtx ==> r.rc == Unavailable && t == s)
      && (info == Some(Cmd(Unregister)) && !hasCtx ==> r.rc == Unavailable && t == s)
      && (info == Some(Cmd(Unregister)) && hasCtx ==> r.rc == Success)
      && (info == Some(Cmd(OtherCommand)) ==> r.rc == Unavailable && t == s)
      && (info == Some(Unsupported) && hasCtx && s.core.ctx.initialized > 0 ==> r.rc == Unavailable && t == s)
  {
    hide HashStep, CipherStep, RsaStep;
  }

  /** An argument error or a declined request leaves the caller's memory as it was. */
  lemma RefusedMemory(suite: Suite, s: State, hasCtx: bool, info: Option<Request>, env: Env)
    requires CallbackStep(suite, s, hasCtx, info, env).1.rc in {BadFuncArg, Unavailable}
    ensures var r := CallbackStep(suite, s, hasCtx, info, env).1;
      && (info.Some? && info.value.AesCbc? ==> r.out == info.value.cipher.mem)
      && (info.Some? && info.value.RsaPk? ==> r.out == info.value.rsa.mem && r.outLen == info.value.rsa.outLen)
      && (info.Some? && info.value.Hash? && info.value.hash.digest.Some? ==> r.out == info.value.hash.digest.value)
  {}

  // ----- AES-CBC

  /** Every AES-CBC callback on a context in use that ends before the device is used. */
  lemma CbcRefused(suite: Suite, s: State, q: CipherRequest, env: Env)
    requires q.inOff + q.sz <= |q.mem| && q.outOff + q.sz <= |q.mem| && s.core.ctx.initialized > 0
    ensures var (t, r) := CallbackStep(suite, s, true, Some(AesCbc(q)), env);
      && (q.aes !in s.objects ==> r == Reply(BadFuncArg, q.mem, None) && t == s)
      && (q.aes in s.objects && |s.objects[q.aes].key| != 16 ==> r == Reply(Unavailable, q.mem, None) && t == s)
      && (q.aes in s.objects && |s.objects[q.aes].key| == 16 && q.sz < 16 ==> r == Reply(Success, q.mem, None) && t == s)
  {
    if q.aes in s.objects { assert s.objects[q.aes := s.objects[q.aes]] == s.objects; }
  }

  lemma CipherOutcomes(suite: Suite, k: Core, a: AesObject, q: CipherRequest, env: Env)
    requires q.inOff + q.sz <= |q.mem| && q.outOff + q.sz <= |q.mem| && q.sz >= 16 && |a.key| == 16
    ensures var o, miss := CipherStep(suite, k, a, q, env), k.ctx.aesKey != Some(a.key);
      var rc, out, c := o.reply.rc, o.reply.out, o.core.ctx;
      && o.reply.outLen == None && c.initialized == k.ctx.initialized && c.m == k.ctx.m && c.hashType == k.ctx.hashType
      && SameSlotsBut(k.dev.slots, o.core.dev.slots, 0xBB, 0x01)
      && (rc != Success ==> o.aes == a) && o.aes.key == a.key
      && if miss && !env.alloc then
           rc == Unavailable && out == q.mem && c.aesKey == None && o.core.dev == k.dev
         else
           && c.aesKey == Some(a.key)
           && (!miss ==> o.core.dev == k.dev)
           && (miss && Ok(env.putRc) ==>
                 Slot(0xBB, 0x01) in o.core.dev.slots && o.core.dev.slots[Slot(0xBB, 0x01)] == AesKey(a.key))
           && (miss && !Ok(env.putRc) ==>
                 DeletedOnly(k.dev.slots, o.core.dev.slots, Slot(0xBB, 0x01), env.deleteRc))
           && if miss && !Ok(env.putRc) then rc == HardwareError && c.vltRc == env.putRc && out == q.mem
              else if !Ok(env.algoRc) then rc == HardwareError && c.vltRc == env.algoRc && out == q.mem
              else if !Ok(env.opRc) then
                rc == HardwareError && c.vltRc == env.opRc && SameOutside(q.mem, out, q.outOff, q.sz)
              else rc == Success && c.vltRc == env.opRc && SameOutside(q.mem, out, q.outOff, q.sz)
  {
    hide DeviceCrypt, Splice, Fit;
  }

  /**
   * Every AES-CBC callback on a context in use with an object, a 128-bit key and at least one
   * block: a miss without memory is declined; a failed upload, start or operation is a hardware
   * error whose code is recorded; all else succeeds. Only an operation touches memory, and only the
   * output range; only slot (0xBB, 0x01) changes; only a success moves the register.
   */
  lemma CbcAnswered(suite: Suite, s: State, q: CipherRequest, env: Env)
    requires q.inOff + q.sz <= |q.mem| && q.outOff + q.sz <= |q.mem| && s.core.ctx.initialized > 0
    requires q.aes in s.objects && |s.objects[q.aes].key| == 16 && q.sz >= 16
    ensures var (t, r) := CallbackStep(suite, s, true, Some(AesCbc(q)), env);
      var miss, c := s.core.ctx.aesKey != Some(s.objects[q.aes].key), t.core.ctx;
      && (r.rc == Unavailable <==> miss && !env.alloc)
      && (r.rc == Success <==>
            (miss ==> env.alloc && Ok(env.putRc)) && Ok(env.algoRc) && Ok(env.opRc))
      && (r.rc != Unavailable && r.rc != Success ==> r.rc == HardwareError)
      && (r.rc == HardwareError ==>
            c.vltRc == if miss && !Ok(env.putRc) then env.putRc else if !Ok(env.algoRc) then env.algoRc else env.opRc)
      && (r.rc == Success ==> c.vltRc == env.opRc)
      && SameOutside(q.mem, r.out, q.outOff, q.sz)
      && ((miss && !(env.alloc && Ok(env.putRc))) || !Ok(env.algoRc) ==> r.out == q.mem)
      && SameSlotsBut(s.core.dev.slots, t.core.dev.slots, 0xBB, 0x01)
      && (miss && env.alloc && !Ok(env.putRc) ==>
            DeletedOnly(s.core.dev.slots, t.core.dev.slots, Slot(0xBB, 0x01), env.deleteRc))
      && (r.rc != Success ==> t.objects == s.objects)
  {
    CipherOutcomes(suite, s.core, s.objects[q.aes], q, env);
    hide CipherStep;
    assert s.objects[q.aes := s.objects[q.aes]] == s.objects;
  }

  /** In software, a key that is not 128 bits long is always served, as one CBC call, and the port is not changed. */
  lemma SoftwareServesOtherKeys(suite: Suite, s: State, q: CipherRequest, env: Env)
    requires q.inOff + q.sz <= |q.mem| && q.outOff + q.sz <= |q.mem| && s.core.ctx.initialized > 0
    requires q.aes in s.objects && |s.objects[q.aes].key| != 16
    ensures var (t, r) := Step(suite, s, Callback(true, Some(AesCbc(q)), true, env));
      && r.rc == Success && t.core == s.core && q.aes in t.objects
      && IsCbcCall(suite, s.objects[q.aes], q, r, t.objects[q.aes])
  {
    CbcRefused(suite, s, q, env);
    hide CallbackStep;
    SoftwareIsCbc(suite, s.objects[q.aes], q);
  }

  // ----- SHA-256

  lemma HashOutcomes(suite: Suite, k: Core, q: HashRequest, env: Env)
    requires Inv(k) && q.hashType == Sha256 && (q.digest.Some? ==> |q.digest.value| == 32)
    ensures var o := HashStep(suite, k, q, env);
      var data := if q.input.None? then [] else q.input.value;
      var rc, c, empty := o.reply.rc, o.core.ctx, k.ctx.m == None && data == [];
      && o.core.dev == k.dev && c.aesKey == k.ctx.aesKey && c.initialized == k.ctx.initialized && o.reply.outLen == None
      && if data != [] && !env.alloc then
           rc == MemoryError && c.m == k.ctx.m && (q.digest.Some? ==> o.reply.out == q.digest.value)
         else if q.digest.None? then
           rc == if data != [] then Success else Unavailable
         else if !Ok(env.algoRc) then
           rc == HardwareError && c.vltRc == env.algoRc && o.reply.out == q.digest.value
         else if empty && !Ok(env.updateRc) then
           rc == HardwareError && c.vltRc == env.updateRc && o.reply.out == q.digest.value
         else if !Ok(env.opRc) then rc == HardwareError && c.vltRc == env.opRc
         else rc == Success && c.vltRc == env.opRc
  {}

  /**
   * Every hash callback on a context in use: other hashes are declined; SHA-256 data without memory
   * is refused; a request without data and digest is declined; a finalize fails with the first
   * device call that fails, the update call being made only for the empty message, and succeeds
   * otherwise. The device's slots and the cached key never change, and the digest buffer changes
   * only if the call that writes it is reached.
   */
  lemma HashAnswered(suite: Suite, s: State, q: HashRequest, env: Env)
    requires Inv(s.core) && s.core.ctx.initialized > 0 && (q.digest.Some? ==> |q.digest.value| == 32)
    ensures var (t, r) := CallbackStep(suite, s, true, Some(Hash(q)), env);
      var data := if q.input.None? then [] else q.input.value;
      var empty := s.core.ctx.m == None && data == [];
      && t.objects == s.objects && t.core.dev == s.core.dev && t.core.ctx.aesKey == s.core.ctx.aesKey
      && if q.hashType != Sha256 then r.rc == Unavailable && t == s
         else if data != [] && !env.alloc then r.rc == MemoryError && t.core.ctx.m == s.core.ctx.m
         else if q.digest.None? then r.rc == if data != [] then Success else Unavailable
         else if !Ok(env.algoRc) then
           r.rc == HardwareError && t.core.ctx.vltRc == env.algoRc && r.out == q.digest.value
         else if empty && !Ok(env.updateRc) then
           r.rc == HardwareError && t.core.ctx.vltRc == env.updateRc && r.out == q.digest.value
         else if !Ok(env.opRc) then r.rc == HardwareError && t.core.ctx.vltRc == env.opRc
         else r.rc == Success && t.core.ctx.vltRc == env.opRc
  {
    if q.hashType == Sha256 {
      HashOutcomes(suite, s.core, q, env);
      hide HashStep;
    }
  }

  // ----- RSA

  lemma PadIsZerosInFront(e: seq<byte>)
    requires |e| <= 4
    ensures |PadExponent(e)| == 4 && PadExponent(e)[4 - |e|..] == e
    ensures forall i :: 0 <= i < 4 - |e| ==> PadExponent(e)[i] == 0
  {}

  lemma RsaOutcomes(suite: Suite, k: Core, q: RsaRequest, env: Env)
    requires q.inOff + q.inLen <= |q.mem| && q.outOff + q.inLen <= |q.mem|
    requires q.kind == PublicDecrypt || q.kind == PublicEncrypt
    ensures var o := RsaStep(suite, k, q, env);
      var rc, out, len, c := o.reply.rc, o.reply.out, o.reply.outLen, o.core.ctx;
      && SameSlotsBut(k.dev.slots, o.core.dev.slots, 0xBB, 0x03)
      && if env.exportRc != Success || |q.key.e| > 4 then
           rc != Success && o.core == k && out == q.mem && len == q.outLen
           && (env.exportRc != Success ==> rc == env.exportRc)
         else
           && (Ok(env.putRc) ==>
                 Slot(0xBB, 0x03) in o.core.dev.slots &&
                 o.core.dev.slots[Slot(0xBB, 0x03)] == RsaPublicKey(q.key.n, PadExponent(q.key.e)))
           && (!Ok(env.putRc) ==> DeletedOnly(k.dev.slots, o.core.dev.slots, Slot(0xBB, 0x03), env.deleteRc))
           && if !Ok(env.putRc) then rc == HardwareError && c.vltRc == env.putRc && out == q.mem && len == q.outLen
              else if !Ok(env.algoRc) then rc == HardwareError && c.vltRc == env.algoRc && out == q.mem && len == q.outLen
              else
                && SameOutside(q.mem, out, q.outOff, q.inLen) && c.vltRc == env.opRc
                && rc == (if Ok(env.opRc) then Success else HardwareError)
                && len == if q.outLen.None? then None else Some(if Ok(env.opRc) then q.inLen else env.produced)
  {
    hide DeviceRsa, Splice, Fit, PadExponent;
    PadIsZerosInFront([]);
  }

  /**
   * Every RSA callback on a context in use. The two public kinds succeed exactly if the key can be
   * exported, its exponent has at most four bytes, and put, start and operation succeed; the first
   * that fails decides the code, and a device code is recorded. The private kinds and unknown ones
   * are declined and change nothing. Only slot (0xBB, 0x03) is written, and it then holds the key.
   */
  lemma RsaAnswered(suite: Suite, s: State, q: RsaRequest, software: bool, env: Env)
    requires q.inOff + q.inLen <= |q.mem| && q.outOff + q.inLen <= |q.mem| && s.core.ctx.initialized > 0
    ensures var (t, r) := Step(suite, s, Callback(true, Some(RsaPk(q)), software, env));
      && t.objects == s.objects
      && (q.kind in {PrivateDecrypt, PrivateEncrypt, OtherRsa} ==> r == Reply(Unavailable, q.mem, q.outLen) && t == s)
      && (q.kind in {PublicDecrypt, PublicEncrypt} ==>
           && (r.rc == Success <==>
                 env.exportRc == Success && |q.key.e| <= 4 && Ok(env.putRc) && Ok(env.algoRc) && Ok(env.opRc))
           && (env.exportRc != Success ==> r.rc == env.exportRc && t == s)
           && (|q.key.e| > 4 ==> t == s)
           && (env.exportRc == Success && |q.key.e| <= 4 && r.rc != Success ==>
                 r.rc == HardwareError &&
                 t.core.ctx.vltRc ==
                   if !Ok(env.putRc) then env.putRc else if !Ok(env.algoRc) then env.algoRc else env.opRc)
           && SameSlotsBut(s.core.dev.slots, t.core.dev.slots, 0xBB, 0x03)
           && (env.exportRc == Success && |q.key.e| <= 4 && !Ok(env.putRc) ==>
                 DeletedOnly(s.core.dev.slots, t.core.dev.slots, Slot(0xBB, 0x03), env.deleteRc))
           && SameOutside(q.mem, r.out, q.outOff, q.inLen)
           && (r.rc == Success ==>
                 && Slot(0xBB, 0x03) in t.core.dev.slots
                 && t.core.dev.slots[Slot(0xBB, 0x03)] == RsaPublicKey(q.key.n, PadExponent(q.key.e))
                 && r.outLen == if q.outLen.None? then None else Some(q.inLen)))
  {
    if q.kind == PublicDecrypt || q.kind == PublicEncrypt {
      RsaOutcomes(suite, s.core, q, env);
      hide RsaStep;
    }
  }
}
