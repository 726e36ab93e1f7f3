/** What every reachable state keeps: buffers, device opens and the use count balance. */
module Resources {
  import opened Bytes
  import opened Machine

  ghost predicate Inv(k: Core) {
    var c := k.ctx;
    // a context that is not in use owns nothing, so clearing it loses nothing
    && (c.initialized == 0 ==> c.m.None? && c.aesKey.None? && c.hashType == NoHash)
    // a message buffer is allocated exactly when there is something in it
    && (c.hashType != Sha256 ==> c.m.None?)
    && c.m != Some([])
    && (c.aesKey.Some? ==> |c.aesKey.value| == 16)
    // the device is open exactly while the context is in use
    && (k.dev.isOpen <==> c.initialized > 0)
    && k.dev.opens == k.dev.closes + (if c.initialized > 0 then 1 else 0)
    // every buffer handed out was given back or is still owned
    && k.heap.allocs == k.heap.frees + Count(c.m) + Count(c.aesKey)
  }

  lemma HashKeepsInv(suite: Suite, k: Core, q: HashRequest, env: Env)
    requires Inv(k) && k.ctx.initialized > 0 && Hash(q).WellFormed()
    ensures Inv(HashStep(suite, k, q, env).core)
  {}

  lemma CipherKeepsInv(suite: Suite, k: Core, a: AesObject, q: CipherRequest, env: Env)
    requires Inv(k) && k.ctx.initialized > 0 && q.InBounds()
    ensures Inv(CipherStep(suite, k, a, q, env).core)
  {}

  /** The cipher and RSA handlers leave the use count and the message alone, and RSA the cached key. */
  lemma CipherFrame(suite: Suite, k: Core, a: AesObject, q: CipherRequest, env: Env)
    requires q.InBounds()
    ensures var c := CipherStep(suite, k, a, q, env).core.ctx;
      c.initialized == k.ctx.initialized && c.m == k.ctx.m && c.hashType == k.ctx.hashType
  {}

  lemma RsaFrame(suite: Suite, k: Core, q: RsaRequest, env: Env)
    requires q.InBounds()
    ensures var k' := RsaStep(suite, k, q, env).core;
      && k'.ctx.initialized == k.ctx.initialized && k'.ctx.m == k.ctx.m && k'.ctx.hashType == k.ctx.hashType
      && k'.ctx.aesKey == k.ctx.aesKey && k'.heap == k.heap
      && k'.dev.(slots := map[]) == k.dev.(slots := map[])
      && k'.dev.slots - {TMP_RSA} == k.dev.slots - {TMP_RSA}
  {}

  lemma HashFrame(suite: Suite, k: Core, q: HashRequest, env: Env)
    requires Hash(q).WellFormed()
    ensures var k' := HashStep(suite, k, q, env).core;
      k'.ctx.initialized == k.ctx.initialized && k'.ctx.aesKey == k.ctx.aesKey && k'.dev == k.dev
  {}

  lemma {:induction false} StepKeepsInv(suite: Suite, s: State, e: Event)
    requires Inv(s.core)
    ensures Inv(Step(suite, s, e).0.core)
  {
    hide HashStep, CipherStep, RsaStep;
    if e.Callback? && e.info.Some? && e.hasCtx && s.core.ctx.initialized > 0 {
      match e.info.value
      case Hash(q) => HashKeepsInv(suite, s.core, q, e.env);
      case AesCbc(q) =>
        if q.aes in s.objects { CipherKeepsInv(suite, s.core, s.objects[q.aes], q, e.env); }
      case RsaPk(q) => RsaFrame(suite, s.core, q, e.env);
      case _ =>
    }
  }

  lemma {:induction false} ReachableInv(suite: Suite, es: seq<Event>)
    ensures Inv(After(suite, es).core)
  {
    if es == [] {
    } else {
      ReachableInv(suite, Before(es));
      StepKeepsInv(suite, After(suite, Before(es)), Last(es));
    }
  }

  // ----- The use count, counted from the calls alone

  /** Calls that take a use of the context: Init, or a register command without a context. */
  predicate Takes(e: Event) {
    e.Init? || (e.Callback? && !e.hasCtx && e.info == Some(Cmd(Register)))
  }

  /** Calls that give one back: Cleanup, or an unregister command on the context. */
  predicate Gives(e: Event) {
    e.Cleanup? || (e.Callback? && e.hasCtx && e.info == Some(Cmd(Unregister)))
  }

  /** The vendor library has two codes for success. */
  predicate Ok(v: VltRc) { v == VltZero || v == VltOk }

  /**
   * Uses outstanding, counted from the calls and the codes of opening the device alone: a take
   * counts if there is a use already or the device opens, and a give takes one back if there is one.
   */
  function Uses(es: seq<Event>): nat {
    if es == [] then 0 else
    var n, e := Uses(Before(es)), Last(es);
    if Takes(e) && (n > 0 || Ok(e.env.openRc)) then n + 1
    else if Gives(e) && n > 0 then n - 1
    else n
  }

  lemma StepCountsUses(suite: Suite, s: State, e: Event)
    ensures var n := s.core.ctx.initialized;
      Step(suite, s, e).0.core.ctx.initialized ==
        if Takes(e) && (n > 0 || Ok(e.env.openRc)) then n + 1
        else if Gives(e) && n > 0 then n - 1
        else n
  {
    hide HashStep, CipherStep, RsaStep;
    if e.Callback? && e.info.Some? {
      match e.info.value
      case Hash(q) => HashFrame(suite, s.core, q, e.env);
      case AesCbc(q) =>
        if q.aes in s.objects { CipherFrame(suite, s.core, s.objects[q.aes], q, e.env); }
      case RsaPk(q) => RsaFrame(suite, s.core, q, e.env);
      case _ =>
    }
  }

  lemma {:induction false} UsesAreCounted(suite: Suite, es: seq<Event>)
    ensures After(suite, es).core.ctx.initialized == Uses(es)
  {
    if es == [] {
    } else {
      UsesAreCounted(suite, Before(es));
      StepCountsUses(suite, After(suite, Before(es)), Last(es));
    }
  }

  /**
   * Every take in every run: it succeeds exactly if there is a use already or the device opens, and
   * is an initialization error otherwise. In use it only counts; a first use starts with nothing
   * buffered and nothing cached; a failure opens nothing. The code of the open is recorded.
   */
  lemma {:induction false} TakeExactly(suite: Suite, es: seq<Event>)
    requires es != []
    requires Last(es).Init? || (Last(es).Callback? && !Last(es).hasCtx && Last(es).info == Some(Cmd(Register)))
    ensures var n, rc, open := Uses(Before(es)), LastReply(suite, es).rc, Last(es).env.openRc;
      var before, after := After(suite, Before(es)), After(suite, es);
      && (rc == Success <==> n > 0 || open == VltZero || open == VltOk)
      && (rc != Success <==> rc == InitError)
      && after.objects == before.objects && after.core.heap == before.core.heap
      && (n > 0 ==>
            after.core.dev == before.core.dev && after.core.ctx == before.core.ctx.(initialized := n + 1))
      && (n == 0 ==>
            && after.core.ctx == Ctx(if rc == Success then 1 else 0, open, NoHash, None, None)
            && after.core.dev.closes == before.core.dev.closes && after.core.dev.isOpen == (rc == Success)
            && after.core.dev.opens == before.core.dev.opens + if rc == Success then 1 else 0)
  {
    hide HashStep, CipherStep, RsaStep;
    UsesAreCounted(suite, Before(es));
    ReachableInv(suite, Before(es));
  }

  /**
   * Every give in every run succeeds: without a use nothing happens, with several only the count
   * goes down, and the last one clears the context, closes the device and records the code.
   */
  lemma {:induction false} GiveExactly(suite: Suite, es: seq<Event>)
    requires es != []
    requires Last(es).Cleanup? || (Last(es).Callback? && Last(es).hasCtx && Last(es).info == Some(Cmd(Unregister)))
    ensures var n := Uses(Before(es));
      var before, after := After(suite, Before(es)), After(suite, es);
      && LastReply(suite, es).rc == Success && after.objects == before.objects
      && (n == 0 ==> after.core == before.core)
      && (n > 1 ==> after.core == before.core.(ctx := before.core.ctx.(initialized := n - 1)))
      && (n == 1 ==>
            && after.core.ctx == Ctx(0, Last(es).env.closeRc, NoHash, None, None)
            && after.core.dev == before.core.dev.(isOpen := false, closes := before.core.dev.closes + 1)
            && after.core.heap.allocs == before.core.heap.allocs
            && after.core.heap.frees == before.core.heap.allocs)
  {
    hide HashStep, CipherStep, RsaStep;
    UsesAreCounted(suite, Before(es));
    ReachableInv(suite, Before(es));
  }

  /**
   * Conservation over every run and every failure pattern: successful opens are matched by closes
   * except for the one a context in use holds, live buffers are those the context points at, and
   * once every use has been given back nothing is left open, allocated or buffered.
   */
  lemma {:induction false} Conservation(suite: Suite, es: seq<Event>)
    ensures var k := After(suite, es).core;
      && (k.dev.isOpen <==> Uses(es) > 0)
      && k.dev.opens == k.dev.closes + (if Uses(es) > 0 then 1 else 0)
      && k.heap.allocs == k.heap.frees + Count(k.ctx.m) + Count(k.ctx.aesKey)
      && (Uses(es) == 0 ==> k.heap.allocs == k.heap.frees && Buffered(k.ctx) == [])
  {
    ReachableInv(suite, es);
    UsesAreCounted(suite, es);
  }

  // ----- Failures and fallback

  /** A request the port declines leaves the caller's memory, every register and the buffered message alone. */
  lemma DeclinedIsTransparent(suite: Suite, s: State, hasCtx: bool, i: Request, env: Env)
    requires Inv(s.core)
    requires CallbackStep(suite, s, hasCtx, Some(i), env).1.rc == Unavailable
    ensures var (t, r) := CallbackStep(suite, s, hasCtx, Some(i), env);
      && r.out == i.Before() && r.outLen == i.LenBefore()
      && t.objects == s.objects
      && Buffered(t.core.ctx) == Buffered(s.core.ctx)
      && t.core.ctx.initialized == s.core.ctx.initialized
      && (t.core.ctx.aesKey == s.core.ctx.aesKey || t.core.ctx.aesKey == None)
      && t.core.dev == s.core.dev
  {
    if i.AesCbc? && i.cipher.aes in s.objects {
      var a := s.objects[i.cipher.aes];
      assert s.objects[i.cipher.aes := a] == s.objects;
    }
  }

  /** Anything but success leaves every register alone; a refused update leaves the bytes alone. */
  lemma FailureIsAtomic(suite: Suite, s: State, hasCtx: bool, info: Option<Request>, env: Env)
    requires Inv(s.core)
    ensures var (t, r) := CallbackStep(suite, s, hasCtx, info, env);
      && (r.rc != Success ==> t.objects == s.objects)
      && (r.rc == MemoryError ==> Buffered(t.core.ctx) == Buffered(s.core.ctx))
      && (r.rc == BadFuncArg ==> t == s)
  {
    if info.Some? && info.value.AesCbc? && info.value.cipher.aes in s.objects {
      var a := s.objects[info.value.cipher.aes];
      assert s.objects[info.value.cipher.aes := a] == s.objects;
    }
  }
}
