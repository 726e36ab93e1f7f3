/**
 * AES-CBC over whole runs: when the cached key agrees with the device slot, and that every `Aes`
 * object then sees plain CBC under its own key and register, whatever else is interleaved.
 */
module AesRuns {
  import opened Bytes
  import opened Cbc
  import opened Machine
  import opened Resources

  // ----- The cached key and the device slot

  /** A non-NULL cached key is the key the device slot holds. */
  ghost predicate Coherent(k: Core) {
    k.ctx.aesKey.Some? ==> SlotHolds(k.dev.slots, k.ctx.aesKey.value)
  }

  /** The event reaches the upload: a 128-bit key, at least one block, a cache miss, a buffer for the copy. */
  ghost predicate Uploads(s: State, e: Event) {
    e.IsCbc() && e.hasCtx && s.core.ctx.initialized > 0 &&
    var q := e.info.value.cipher;
    q.aes in s.objects && |s.objects[q.aes].key| == 16 && q.Blocks() > 0 &&
    s.core.ctx.aesKey != Some(s.objects[q.aes].key) && e.env.alloc
  }

  /** The slot holds the key after the upload: the put succeeded, or the slot already held it and was not deleted. */
  ghost predicate Took(s: State, e: Event)
    requires Uploads(s, e)
  {
    Good(e.env.putRc) ||
    (!Good(e.env.deleteRc) && SlotHolds(s.core.dev.slots, s.objects[e.info.value.cipher.aes].key))
  }

  /** The most recent upload of the run took. */
  ghost predicate LastUploadTook(suite: Suite, es: seq<Event>) {
    es == [] ||
    var s, e := After(suite, Before(es)), Last(es);
    if Uploads(s, e) then Took(s, e) else LastUploadTook(suite, Before(es))
  }

  /** Every upload of the run took; in particular every run whose puts on a miss all succeed. */
  ghost predicate UploadsTook(suite: Suite, es: seq<Event>) {
    es == [] ||
    (UploadsTook(suite, Before(es)) &&
     var s, e := After(suite, Before(es)), Last(es);
     Uploads(s, e) ==> Took(s, e))
  }

  lemma RefreshCoherence(k: Core, key: seq<byte>, env: Env)
    ensures var k' := RefreshKey(k, key, env).0;
      if k.ctx.aesKey == Some(key) then k' == k
      else if !env.alloc then k'.ctx.aesKey == None && k'.dev == k.dev
      else k'.ctx.aesKey == Some(key) &&
           (SlotHolds(k'.dev.slots, key) <==>
             Good(env.putRc) || (!Good(env.deleteRc) && SlotHolds(k.dev.slots, key)))
  {}

  /** A cipher request changes cache and slot only by its refill. */
  lemma CipherCoherence(suite: Suite, k: Core, a: AesObject, q: CipherRequest, env: Env)
    requires q.InBounds()
    ensures var k' := CipherStep(suite, k, a, q, env).core;
      if |a.key| != 16 || q.Blocks() == 0 || k.ctx.aesKey == Some(a.key) then
        k'.ctx.aesKey == k.ctx.aesKey && k'.dev == k.dev
      else if !env.alloc then k'.ctx.aesKey == None && k'.dev == k.dev
      else k'.ctx.aesKey == Some(a.key) &&
           (SlotHolds(k'.dev.slots, a.key) <==>
             Good(env.putRc) || (!Good(env.deleteRc) && SlotHolds(k.dev.slots, a.key)))
  {
    RefreshCoherence(k, a.key, env);
  }

  /** The temporary RSA key has a slot of its own. */
  lemma RsaKeepsAesSlot(suite: Suite, k: Core, q: RsaRequest, env: Env)
    requires q.InBounds()
    ensures var k' := RsaStep(suite, k, q, env).core;
      k'.ctx.aesKey == k.ctx.aesKey && forall key :: SlotHolds(k'.dev.slots, key) <==> SlotHolds(k.dev.slots, key)
  {
    RsaFrame(suite, k, q, env);
    var slots, slots' := k.dev.slots, RsaStep(suite, k, q, env).core.dev.slots;
    assert TMP_AES in slots <==> TMP_AES in slots - {TMP_RSA};
    assert TMP_AES in slots' <==> TMP_AES in slots' - {TMP_RSA};
    assert TMP_AES in slots ==> (slots - {TMP_RSA})[TMP_AES] == slots[TMP_AES];
    assert TMP_AES in slots' ==> (slots' - {TMP_RSA})[TMP_AES] == slots'[TMP_AES];
  }

  /** One step changes cache and AES slot only by an upload, a failed refill, or with no key cached. */
  lemma {:induction false} StepCoherence(suite: Suite, s: State, e: Event)
    requires Inv(s.core)
    ensures var t := Step(suite, s, e).0;
      && (Uploads(s, e) ==> t.core.ctx.aesKey.Some? && (Coherent(t.core) <==> Took(s, e)))
      && (!Uploads(s, e) && t.core.ctx.aesKey.Some? ==>
            t.core.ctx.aesKey == s.core.ctx.aesKey && (Coherent(t.core) <==> Coherent(s.core)))
  {
    hide HashStep, CipherStep, RsaStep;
    if e.Callback? && e.info.Some? && e.hasCtx && s.core.ctx.initialized > 0 {
      match e.info.value
      case Hash(q) => HashFrame(suite, s.core, q, e.env);
      case AesCbc(q) =>
        if q.aes in s.objects { CipherCoherence(suite, s.core, s.objects[q.aes], q, e.env); }
      case RsaPk(q) => RsaKeepsAesSlot(suite, s.core, q, e.env);
      case _ =>
    }
  }

  /**
   * Exactly when the cache can be trusted: in every reachable state a cached key is the slot's key
   * if and only if the most recent upload took.
   */
  lemma {:induction false} CoherentExactly(suite: Suite, es: seq<Event>)
    ensures var k := After(suite, es).core;
      k.ctx.aesKey.Some? ==> (SlotHolds(k.dev.slots, k.ctx.aesKey.value) <==> LastUploadTook(suite, es))
  {
    if es == [] {
    } else {
      CoherentExactly(suite, Before(es));
      ReachableInv(suite, Before(es));
      StepCoherence(suite, After(suite, Before(es)), Last(es));
    }
  }

  lemma {:induction false} TookToTheEnd(suite: Suite, es: seq<Event>)
    requires UploadsTook(suite, es)
    ensures LastUploadTook(suite, es)
  {
    if es == [] {
    } else {
      TookToTheEnd(suite, Before(es));
    }
  }

  lemma {:induction false} ReachableCoherent(suite: Suite, es: seq<Event>)
    requires UploadsTook(suite, es)
    ensures Coherent(After(suite, es).core)
  {
    CoherentExactly(suite, es);
    TookToTheEnd(suite, es);
  }

  /**
   * The code of a request that reaches the device, in every case: declined if a buffer for a new
   * key cannot be had, a hardware error (recorded in the context) if the upload, the start or the
   * operation fails, success otherwise. The code of the delete never matters.
   */
  lemma CipherCodeExactly(suite: Suite, k: Core, a: AesObject, q: CipherRequest, env: Env)
    requires q.InBounds() && |a.key| == 16 && q.Blocks() > 0
    ensures var o, miss := CipherStep(suite, k, a, q, env), k.ctx.aesKey != Some(a.key);
      var rc := o.reply.rc;
      && (rc == Unavailable <==> miss && !env.alloc)
      && (rc == Success <==> (miss ==> env.alloc && Good(env.putRc)) && Good(env.algoRc) && Good(env.opRc))
      && (rc == HardwareError <==> rc != Unavailable && rc != Success)
      && (rc == HardwareError ==> !Good(o.core.ctx.vltRc))
  {}

  /** A call that hits the cache computes with whatever AES key the slot holds. */
  lemma CachedCall(suite: Suite, k: Core, a: AesObject, q: CipherRequest, key: seq<byte>, ok: Env)
    requires |a.key| == 16 && k.ctx.aesKey == Some(a.key) && SlotHolds(k.dev.slots, key)
    requires q.InBounds() && q.sz > 0 && q.sz % 16 == 0 && Good(ok.algoRc) && Good(ok.opRc)
    ensures CipherStep(suite, k, a, q, ok).reply ==
            Reply(Success, Splice(q.mem, q.outOff, Crypt(suite, q.encrypt, key, a.reg, q.Input())), None)
  {
    hide Crypt, Splice, Fit;
  }

  /**
   * Why uploads must succeed. A call with key `k2` whose delete and put both fail reports a
   * hardware error, but leaves `k2` cached over a slot that still holds `k1`: the same call made
   * again skips the upload and succeeds, returning CBC under `k1`.
   */
  lemma FailedUploadPoisonsCache(suite: Suite, k: Core, a: AesObject, q: CipherRequest, k1: seq<byte>, bad: Env, ok: Env)
    requires |a.key| == 16 && a.key != k1 && k.ctx.aesKey == Some(k1) && SlotHolds(k.dev.slots, k1)
    requires q.InBounds() && q.sz > 0 && q.sz % 16 == 0
    requires bad.alloc && !Good(bad.deleteRc) && !Good(bad.putRc)
    requires Good(ok.algoRc) && Good(ok.opRc)
    ensures var first := CipherStep(suite, k, a, q, bad);
      && first.reply == Reply(HardwareError, q.mem, None) && first.aes == a
      && !Coherent(first.core)
      && var again := CipherStep(suite, first.core, first.aes, q, ok);
         again.reply == Reply(Success, Splice(q.mem, q.outOff, Crypt(suite, q.encrypt, k1, a.reg, q.Input())), None)
  {
    hide Crypt, Splice, Fit;
  }

  /** Initialize, key objects 1 and 2, call on 1, then call twice on 2, the first time with failing delete and put. */
  function PoisonedRun(k1: seq<byte>, k2: seq<byte>, iv: Block, q1: CipherRequest, q2: CipherRequest,
                       bad: Env, ok: Env): seq<Event>
    requires q1.InBounds() && q2.InBounds()
  {
    [Init(ok), SetKey(1, k1, iv), SetKey(2, k2, iv), Callback(true, Some(AesCbc(q1)), false, ok)] +
    [Callback(true, Some(AesCbc(q2)), false, bad)] + [Callback(true, Some(AesCbc(q2)), false, ok)]
  }

  lemma FirstCallFillsCache(suite: Suite, k1: seq<byte>, k2: seq<byte>, iv: Block, q1: CipherRequest, ok: Env)
    requires |k1| == 16 && q1.InBounds() && q1.aes == 1 && q1.Blocks() > 0
    requires ok.alloc && Good(ok.openRc) && Good(ok.putRc)
    ensures var es := [Init(ok), SetKey(1, k1, iv), SetKey(2, k2, iv), Callback(true, Some(AesCbc(q1)), false, ok)];
      var s := After(suite, es);
      && s.core.ctx.initialized == 1 && s.core.ctx.aesKey == Some(k1) && SlotHolds(s.core.dev.slots, k1)
      && 2 in s.objects && s.objects[2] == AesObject(k2, iv)
  {
    var e1: Event, e2: Event, e3: Event := Init(ok), SetKey(1, k1, iv), SetKey(2, k2, iv);
    var e4: Event := Callback(true, Some(AesCbc(q1)), false, ok);
    AfterAppend(suite, [], e1);
    AfterAppend(suite, [e1], e2);
    AfterAppend(suite, [e1, e2], e3);
    AfterAppend(suite, [e1, e2, e3], e4);
    assert [] + [e1] == [e1] && [e1] + [e2] == [e1, e2] && [e1, e2] + [e3] == [e1, e2, e3];
    assert [e1, e2, e3] + [e4] == [e1, e2, e3, e4];
    var s := After(suite, [e1, e2, e3]);
    CipherCoherence(suite, s.core, s.objects[1], q1, ok);
    CipherFrame(suite, s.core, s.objects[1], q1, ok);
  }

  /** The premise on uploads is needed: this run reports success on object 2 and hands out CBC under object 1's key. */
  lemma PoisonedRunUsesWrongKey(suite: Suite, k1: seq<byte>, k2: seq<byte>, iv: Block,
                                q1: CipherRequest, q2: CipherRequest, bad: Env, ok: Env)
    requires |k1| == 16 && |k2| == 16 && k1 != k2
    requires q1.InBounds() && q1.aes == 1 && q1.Blocks() > 0
    requires q2.InBounds() && q2.aes == 2 && q2.sz > 0 && q2.sz % 16 == 0
    requires ok.alloc && Good(ok.openRc) && Good(ok.putRc) && Good(ok.algoRc) && Good(ok.opRc)
    requires bad.alloc && !Good(bad.deleteRc) && !Good(bad.putRc)
    ensures LastReply(suite, PoisonedRun(k1, k2, iv, q1, q2, bad, ok)) ==
            Reply(Success, Splice(q2.mem, q2.outOff, Crypt(suite, q2.encrypt, k1, iv, q2.Input())), None)
  {
    FirstCallFillsCache(suite, k1, k2, iv, q1, ok);
    var es := [Init(ok), SetKey(1, k1, iv), SetKey(2, k2, iv), Callback(true, Some(AesCbc(q1)), false, ok)];
    var e5, e6 := Callback(true, Some(AesCbc(q2)), false, bad), Callback(true, Some(AesCbc(q2)), false, ok);
    AfterAppend(suite, es, e5);
    AfterAppend(suite, es + [e5], e6);
    var s := After(suite, es);
    FailedUploadPoisonsCache(suite, s.core, s.objects[2], q2, k1, bad, ok);
    CipherFrame(suite, s.core, s.objects[2], q2, bad);
  }

  /** The request is for an object of the state, for at least one block, in whole blocks, under a 128-bit key. */
  ghost predicate Asks(s: State, q: CipherRequest) {
    q.InBounds() && q.sz > 0 && q.sz % 16 == 0 && q.aes in s.objects && |s.objects[q.aes].key| == 16
  }

  /**
   * Why a device serves one context. Two contexts are in use on it. A callback on the second that
   * uploads another key leaves the first with a cached key the slot no longer holds, and the next
   * callback on the first succeeds under the second one's key.
   */
  lemma SecondContextPoisonsCache(suite: Suite, s: State, other: Ctx, q: CipherRequest, r: CipherRequest, env: Env, ok: Env)
    requires Asks(s, q) && Asks(s, r) && s.objects[q.aes].key != s.objects[r.aes].key
    requires s.core.ctx.initialized > 0 && other.initialized > 0 && other.aesKey == None
    requires s.core.ctx.aesKey == Some(s.objects[q.aes].key) && Coherent(s.core)
    requires env.alloc && Good(env.putRc) && Good(env.algoRc) && Good(env.opRc) && Good(ok.algoRc) && Good(ok.opRc)
    ensures var second := CallbackStep(suite, s.(core := s.core.(ctx := other)), true, Some(AesCbc(r)), env);
      var back := second.0.(core := second.0.core.(ctx := s.core.ctx));
      var first := CallbackStep(suite, back, true, Some(AesCbc(q)), ok);
      && second.1.rc == Success && !Coherent(back.core)
      && first.1 == Reply(Success, Splice(q.mem, q.outOff,
           Crypt(suite, q.encrypt, s.objects[r.aes].key, s.objects[q.aes].reg, q.Input())), None)
  {
    hide CipherStep, Crypt, Splice;
    var a, b, k := s.objects[q.aes], s.objects[r.aes], s.core.(ctx := other);
    CipherCoherence(suite, k, b, r, env);
    CipherCodeExactly(suite, k, b, r, env);
    var back := CipherStep(suite, k, b, r, env).core.(ctx := s.core.ctx);
    CachedCall(suite, back, a, q, b.key, ok);
  }

  // ----- One call

  /** The input block that feeds the next register lies outside what the call writes. */
  predicate LastInputSurvives(inOff: nat, outOff: nat, sz: nat) {
    sz < 16 || inOff + sz <= outOff || outOff + sz <= inOff + sz - 16
  }

  /** Whole blocks (or less than one), and a decrypt whose last input block is not overwritten. */
  predicate Safe(q: CipherRequest) {
    (q.sz % 16 == 0 || q.sz < 16) && (!q.encrypt ==> LastInputSurvives(q.inOff, q.outOff, q.sz))
  }

  /** The whole blocks of a request and what the reply put in their place. */
  function Completed(q: CipherRequest, r: Reply): Done
    requires q.InBounds() && |r.out| == |q.mem|
  {
    var n := q.Blocks() * 16;
    Done(q.encrypt, q.mem[q.inOff..q.inOff + n], r.out[q.outOff..q.outOff + n])
  }

  lemma MemoryKeepsLength(suite: Suite, s: State, e: Event)
    requires e.IsCbc()
    ensures |Step(suite, s, e).1.out| == |e.info.value.cipher.mem|
  {}

  lemma OutsideSplice(mem: seq<byte>, off: nat, data: seq<byte>, at: nat)
    requires off + |data| <= |mem| && at + 16 <= |mem|
    requires at + 16 <= off || off + |data| <= at
    ensures Splice(mem, off, data)[at..at + 16] == mem[at..at + 16]
  {
    hide Splice;
  }

  lemma EndOfSplice(mem: seq<byte>, off: nat, data: seq<byte>, at: nat)
    requires off + |data| <= |mem| && |data| >= 16 && at == off + |data| - 16
    ensures Splice(mem, off, data)[at..at + 16] == data[|data| - 16..]
  {
    hide Splice;
    var out := Splice(mem, off, data);
    assert out[at..at + 16] == out[off..off + |data|][|data| - 16..];
  }

  lemma LastBlockSurvives(q: CipherRequest, written: seq<byte>)
    requires q.InBounds() && |written| == q.sz > 0 && q.sz % 16 == 0 && Safe(q)
    ensures var out := Splice(q.mem, q.outOff, written);
      out[LastBlock(q)..LastBlock(q) + 16] ==
        (if q.encrypt then written else q.Input())[q.sz - 16..]
  {
    hide Splice;
    if q.encrypt {
      EndOfSplice(q.mem, q.outOff, written, LastBlock(q));
    } else {
      OutsideSplice(q.mem, q.outOff, written, LastBlock(q));
      assert q.Input()[q.sz - 16..] == q.mem[LastBlock(q)..LastBlock(q) + 16];
    }
  }

  /** The reply and the object's new value are those of one CBC call under the object's key and register. */
  ghost predicate IsCbcCall(suite: Suite, a: AesObject, q: CipherRequest, r: Reply, a': AesObject)
    requires q.InBounds()
  {
    var input := q.mem[q.inOff..q.inOff + q.Blocks() * 16];
    var output := Crypt(suite, q.encrypt, a.key, a.reg, input);
    r.out == Splice(q.mem, q.outOff, output) && a' == a.(reg := Tail(a.reg, if q.encrypt then output else input))
  }

  lemma DeviceWritesCbc(suite: Suite, slots: Slots, a: AesObject, q: CipherRequest, junk: seq<byte>)
    requires SlotHolds(slots, a.key) && q.InBounds() && Safe(q) && q.Blocks() > 0
    ensures var out := Splice(q.mem, q.outOff, DeviceCrypt(suite, slots, q.encrypt, a.reg, q.Input(), junk));
      IsCbcCall(suite, a, q, Reply(Success, out, None), a.(reg := out[LastBlock(q)..LastBlock(q) + 16]))
  {
    hide Crypt, Fit;
    var input := q.mem[q.inOff..q.inOff + q.Blocks() * 16];
    assert input == q.Input();
    LastBlockSurvives(q, Crypt(suite, q.encrypt, a.key, a.reg, input));
  }

  lemma NothingWrittenIsCbc(suite: Suite, a: AesObject, q: CipherRequest)
    requires q.InBounds() && q.Blocks() == 0
    ensures IsCbcCall(suite, a, q, Reply(Success, q.mem, None), a)
  {
    assert Splice(q.mem, q.outOff, []) == q.mem;
  }

  /** A successful call of at least one block leaves its key cached and writes what the slot's key computes. */
  lemma DeviceCall(suite: Suite, k: Core, a: AesObject, q: CipherRequest, env: Env)
    requires q.InBounds() && q.Blocks() > 0 && CipherStep(suite, k, a, q, env).reply.rc == Success
    ensures var o := CipherStep(suite, k, a, q, env);
      var out := Splice(q.mem, q.outOff, DeviceCrypt(suite, o.core.dev.slots, q.encrypt, a.reg, q.Input(), env.junk));
      && o.core.ctx.aesKey == Some(a.key)
      && o.reply == Reply(Success, out, None) && o.aes == a.(reg := out[LastBlock(q)..LastBlock(q) + 16])
  {
    hide DeviceCrypt, Splice, Fit;
  }

  lemma DeviceCallIsCbc(suite: Suite, k: Core, a: AesObject, q: CipherRequest, env: Env)
    requires q.InBounds() && CipherStep(suite, k, a, q, env).reply.rc == Success
    requires q.Blocks() > 0 ==> Safe(q) && SlotHolds(CipherStep(suite, k, a, q, env).core.dev.slots, a.key)
    ensures var o := CipherStep(suite, k, a, q, env);
      IsCbcCall(suite, a, q, o.reply, o.aes)
  {
    if q.Blocks() == 0 {
      NothingWrittenIsCbc(suite, a, q);
    } else {
      var o := CipherStep(suite, k, a, q, env);
      DeviceCall(suite, k, a, q, env);
      hide CipherStep;
      DeviceWritesCbc(suite, o.core.dev.slots, a, q, env.junk);
    }
  }

  /** The device, not wolfCrypt's software, completes the request, and it has at least one block. */
  ghost predicate DeviceServes(suite: Suite, s: State, e: Event) {
    e.IsCbc() && e.info.value.cipher.aes in s.objects && e.info.value.cipher.Blocks() > 0 &&
    CallbackStep(suite, s, e.hasCtx, e.info, e.env).1.rc == Success
  }

  lemma ServedStep(suite: Suite, s: State, e: Event)
    requires DeviceServes(suite, s, e)
    ensures var q := e.info.value.cipher;
      var o := CipherStep(suite, s.core, s.objects[q.aes], q, e.env);
      o.reply.rc == Success && Step(suite, s, e) == (State(o.core, s.objects[q.aes := o.aes]), o.reply)
  {
    hide CipherStep;
  }

  lemma SoftwareIsCbc(suite: Suite, a: AesObject, q: CipherRequest)
    requires q.InBounds()
    ensures var input := q.mem[q.inOff..q.inOff + q.Blocks() * 16];
      var output := Crypt(suite, q.encrypt, a.key, a.reg, input);
      IsCbcCall(suite, a, q, Reply(Success, Splice(q.mem, q.outOff, output), None),
                a.(reg := Tail(a.reg, if q.encrypt then output else input)))
  {}

  /** A completed call, by device or by software, is one CBC call; no other object is touched. */
  lemma {:induction false} CallIsCbc(suite: Suite, s: State, e: Event)
    requires Inv(s.core) && e.IsCbc() && Step(suite, s, e).1.rc == Success
    requires DeviceServes(suite, s, e) ==>
      Safe(e.info.value.cipher) &&
      SlotHolds(Step(suite, s, e).0.core.dev.slots, s.objects[e.info.value.cipher.aes].key)
    ensures var q, (t, r) := e.info.value.cipher, Step(suite, s, e);
      && q.aes in s.objects && q.aes in t.objects
      && IsCbcCall(suite, s.objects[q.aes], q, r, t.objects[q.aes])
      && t.objects == s.objects[q.aes := t.objects[q.aes]]
  {
    hide CipherStep, IsCbcCall;
    var q := e.info.value.cipher;
    var (t, r) := CallbackStep(suite, s, e.hasCtx, e.info, e.env);
    if r.rc == Unavailable {
      DeclinedIsTransparent(suite, s, e.hasCtx, e.info.value, e.env);
      SoftwareIsCbc(suite, s.objects[q.aes], q);
    } else {
      DeviceCallIsCbc(suite, s.core, s.objects[q.aes], q, e.env);
    }
  }

  lemma CompletedIsCrypt(suite: Suite, a: AesObject, q: CipherRequest, r: Reply, a': AesObject)
    requires q.InBounds() && IsCbcCall(suite, a, q, r, a')
    ensures var d := Completed(q, r);
      && Whole(d.input) && d.output == Crypt(suite, d.encrypt, a.key, a.reg, d.input)
      && a' == a.(reg := Tail(a.reg, d.Cipher()))
  {}

  // ----- Whole runs, one object at a time

  /** The key and IV the object was last given. */
  function Keyed(es: seq<Event>, id: nat): Option<AesObject> {
    if es == [] then None
    else if Last(es).SetKey? && Last(es).aes == id then Some(AesObject(Last(es).key, Last(es).iv))
    else Keyed(Before(es), id)
  }

  predicate IsFor(e: Event, id: nat) { e.IsCbc() && e.info.value.cipher.aes == id }

  /** The calls completed on the object since it was keyed: what was asked and what came back. */
  ghost function Calls(suite: Suite, es: seq<Event>, id: nat): seq<Done> {
    if es == [] || (Last(es).SetKey? && Last(es).aes == id) then []
    else if IsFor(Last(es), id) && LastReply(suite, es).rc == Success then
      MemoryKeepsLength(suite, After(suite, Before(es)), Last(es));
      Calls(suite, Before(es), id) + [Completed(Last(es).info.value.cipher, LastReply(suite, es))]
    else Calls(suite, Before(es), id)
  }

  /**
   * Every call the device completed on the object since it was keyed has a safe layout and came
   * when the most recent upload by anyone had taken. Nothing is asked of calls served in software,
   * of other objects' calls, of failed calls, or of calls under an earlier key.
   */
  ghost predicate Sound(suite: Suite, es: seq<Event>, id: nat) {
    es == [] || (Last(es).SetKey? && Last(es).aes == id) ||
    (Sound(suite, Before(es), id) &&
     (IsFor(Last(es), id) && LastReply(suite, es).rc == Success ==>
        (DeviceServes(suite, After(suite, Before(es)), Last(es)) ==>
           Safe(Last(es).info.value.cipher) && LastUploadTook(suite, es))))
  }

  /** The requests made on one object have safe layouts. */
  ghost predicate SafeFor(es: seq<Event>, id: nat) {
    forall i :: 0 <= i < |es| && IsFor(es[i], id) ==> Safe(es[i].info.value.cipher)
  }

  /** In particular: safe layouts in a run whose uploads all took. */
  lemma {:induction false} UploadsSuffice(suite: Suite, es: seq<Event>, id: nat)
    requires UploadsTook(suite, es) && SafeFor(es, id)
    ensures Sound(suite, es, id)
  {
    if es == [] {
    } else {
      assert forall i :: 0 <= i < |Before(es)| ==> Before(es)[i] == es[i];
      UploadsSuffice(suite, Before(es), id);
      TookToTheEnd(suite, es);
      assert es[|es| - 1] == Last(es);
    }
  }

  /** No CBC request of the run was answered with a hardware error: something callers can see. */
  predicate NoCipherError(suite: Suite, es: seq<Event>) {
    es == [] || (NoCipherError(suite, Before(es)) && (Last(es).IsCbc() ==> LastReply(suite, es).rc != HardwareError))
  }

  lemma FailedUploadIsReported(suite: Suite, s: State, e: Event)
    requires Uploads(s, e) && !Good(e.env.putRc)
    ensures Step(suite, s, e).1.rc == HardwareError
  {
    hide CipherStep;
    var q := e.info.value.cipher;
    CipherCodeExactly(suite, s.core, s.objects[q.aes], q, e.env);
  }

  lemma {:induction false} NoErrorMeansUploadsTook(suite: Suite, es: seq<Event>)
    requires NoCipherError(suite, es)
    ensures UploadsTook(suite, es)
  {
    if es == [] {
    } else {
      var s, e := After(suite, Before(es)), Last(es);
      NoErrorMeansUploadsTook(suite, Before(es));
      if Uploads(s, e) && !Good(e.env.putRc) {
        FailedUploadIsReported(suite, s, e);
      }
    }
  }

  /** What callers can check: safe layouts in a run where no CBC request met a hardware error. */
  lemma {:induction false} NoErrorsSuffice(suite: Suite, es: seq<Event>, id: nat)
    requires NoCipherError(suite, es) && SafeFor(es, id)
    ensures Sound(suite, es, id)
  {
    NoErrorMeansUploadsTook(suite, es);
    UploadsSuffice(suite, es, id);
  }

  /**
   * What callers see: a call the device serves is computed with the key in the slot, and that is
   * the object's own key if and only if the most recent upload took.
   */
  lemma {:induction false} ServedUnderOwnKeyExactly(suite: Suite, es: seq<Event>)
    requires es != [] && DeviceServes(suite, After(suite, Before(es)), Last(es))
    ensures var q, slots := Last(es).info.value.cipher, After(suite, es).core.dev.slots;
      var a := After(suite, Before(es)).objects[q.aes];
      && LastReply(suite, es).out ==
           Splice(q.mem, q.outOff, DeviceCrypt(suite, slots, q.encrypt, a.reg, q.Input(), Last(es).env.junk))
      && (SlotHolds(slots, a.key) <==> LastUploadTook(suite, es))
  {
    var s, e := After(suite, Before(es)), Last(es);
    var q := e.info.value.cipher;
    CoherentExactly(suite, es);
    ServedStep(suite, s, e);
    DeviceCall(suite, s.core, s.objects[q.aes], q, e.env);
  }

  /** An event that is no completed call of the object's leaves the object alone. */
  lemma OthersLeaveObject(suite: Suite, s: State, e: Event, id: nat)
    requires Inv(s.core)
    requires !(e.SetKey? && e.aes == id)
    requires !(IsFor(e, id) && Step(suite, s, e).1.rc == Success)
    ensures var t := Step(suite, s, e).0;
      (id in t.objects <==> id in s.objects) && (id in s.objects ==> t.objects[id] == s.objects[id])
  {
    if e.Callback? {
      FailureIsAtomic(suite, s, e.hasCtx, e.info, e.env);
    }
  }

  /** The object is where its own session leaves it. */
  ghost predicate ObjectFollows(suite: Suite, s: State, a: Option<AesObject>, log: seq<Done>, id: nat) {
    match a
    case None => id !in s.objects
    case Some(o) =>
      && IsSession(suite, o.key, o.reg, log)
      && id in s.objects && s.objects[id] == AesObject(o.key, RegAfter(o.reg, log))
  }

  lemma SessionGrows(suite: Suite, s: State, t: State, q: CipherRequest, r: Reply, o: AesObject, log: seq<Done>)
    requires ObjectFollows(suite, s, Some(o), log, q.aes) && q.InBounds()
    requires q.aes in t.objects && IsCbcCall(suite, s.objects[q.aes], q, r, t.objects[q.aes])
    ensures ObjectFollows(suite, t, Some(o), log + [Completed(q, r)], q.aes)
  {
    CompletedIsCrypt(suite, s.objects[q.aes], q, r, t.objects[q.aes]);
    SessionExtends(suite, o.key, o.reg, log, Completed(q, r));
  }

  /**
   * Non-interference: in every run, whatever other objects, hashes, RSA operations, failures,
   * fallbacks, inits and cleanups are interleaved, if the object's own calls are sound then the
   * calls completed on it form one CBC session under the key and IV it was given.
   */
  lemma {:induction false} NonInterference(suite: Suite, es: seq<Event>, id: nat)
    requires Sound(suite, es, id)
    ensures ObjectFollows(suite, After(suite, es), Keyed(es, id), Calls(suite, es, id), id)
  {
    if es == [] || (Last(es).SetKey? && Last(es).aes == id) {
    } else {
      var before, e := Before(es), Last(es);
      var s := After(suite, before);
      NonInterference(suite, before, id);
      ReachableInv(suite, before);
      if IsFor(e, id) && LastReply(suite, es).rc == Success {
        if DeviceServes(suite, s, e) { ServedUnderOwnKeyExactly(suite, es); }
        CallIsCbc(suite, s, e);
        MemoryKeepsLength(suite, s, e);
        SessionGrows(suite, s, After(suite, es), e.info.value.cipher, LastReply(suite, es),
                     Keyed(before, id).value, Calls(suite, before, id));
      } else {
        OthersLeaveObject(suite, s, e, id);
      }
    }
  }

  /** An object used in one direction only computes one-shot CBC of everything it was given. */
  lemma {:induction false} StreamIsOneShot(suite: Suite, es: seq<Event>, id: nat, encrypt: bool)
    requires Sound(suite, es, id)
    requires Keyed(es, id).Some? && AllInDirection(Calls(suite, es, id), encrypt)
    ensures var a, log := Keyed(es, id).value, Calls(suite, es, id);
      && Whole(Inputs(log)) && Outputs(log) == Crypt(suite, encrypt, a.key, a.reg, Inputs(log))
      && id in After(suite, es).objects
      && After(suite, es).objects[id].reg == Tail(a.reg, if encrypt then Outputs(log) else Inputs(log))
  {
    NonInterference(suite, es, id);
    var a := Keyed(es, id).value;
    SessionIsOneShot(suite, encrypt, a.key, a.reg, Calls(suite, es, id));
  }

  /**
   * End to end: one object encrypts in any cut, another object with the same key and IV decrypts
   * the result in any other cut, all interleaved in one run; the message comes back.
   */
  lemma {:induction false} RunRoundTrip(suite: Suite, es: seq<Event>, sender: nat, receiver: nat)
    requires Invertible(suite) && Sound(suite, es, sender) && Sound(suite, es, receiver)
    requires Keyed(es, sender).Some? && Keyed(es, receiver) == Keyed(es, sender)
    requires AllInDirection(Calls(suite, es, sender), true)
    requires AllInDirection(Calls(suite, es, receiver), false)
    requires Inputs(Calls(suite, es, receiver)) == Outputs(Calls(suite, es, sender))
    ensures Outputs(Calls(suite, es, receiver)) == Inputs(Calls(suite, es, sender))
  {
    NonInterference(suite, es, sender);
    NonInterference(suite, es, receiver);
    var a := Keyed(es, sender).value;
    SessionsRoundTrip(suite, a.key, a.reg, Calls(suite, es, sender), Calls(suite, es, receiver));
  }
}
