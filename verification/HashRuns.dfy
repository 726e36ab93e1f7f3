/** SHA-256 over whole runs: what a finalize hashes, whose bytes those are, and what leaves no trace. */
module HashRuns {
  import opened Bytes
  import opened Cbc
  import opened Machine
  import opened Resources

  // ----- The message, read off the calls and their return codes

  /** Bytes accepted by one call: on which object, and which event of the run that was. */
  datatype Part = Part(who: Option<nat>, at: nat, data: seq<byte>)

  function Message(parts: seq<Part>): seq<byte> {
    if parts == [] then [] else Message(parts[..|parts| - 1]) + parts[|parts| - 1].data
  }

  /** The object a request is made on; requests without one count as one object. */
  function Owner(q: HashRequest): Option<nat> {
    if q.sha256.None? then None else Some(q.sha256.value.id)
  }

  /** What a request adds: its bytes, unless they were refused for lack of memory. */
  function Accepted(q: HashRequest, rc: Rc, at: nat): seq<Part> {
    if q.Data() != [] && rc != MemoryError then [Part(Owner(q), at, q.Data())] else []
  }

  /** A successful finalize of a hash that is not a copy. */
  predicate Released(q: HashRequest, rc: Rc) {
    q.digest.Some? && rc == Success && (q.sha256.None? || !q.sha256.value.isCopy)
  }

  /** The bytes accepted since the last releasing finalize, or since the context was last given up. */
  function Parts(suite: Suite, es: seq<Event>): seq<Part> {
    if es == [] then [] else
    var parts, e, rc := Parts(suite, Before(es)), Last(es), LastReply(suite, es).rc;
    if e.IsHash() && rc != BadFuncArg then
      var q := e.info.value.hash;
      if Released(q, rc) then [] else parts + Accepted(q, rc, |es| - 1)
    else if Gives(e) && Uses(es) == 0 then []
    else parts
  }

  lemma {:induction false} MessageAppend(parts: seq<Part>, q: HashRequest, rc: Rc, at: nat)
    ensures Message(parts + Accepted(q, rc, at)) == Message(parts) + if rc != MemoryError then q.Data() else []
  {
    var more := Accepted(q, rc, at);
    if more == [] {
      assert parts + more == parts;
    } else {
      var all := parts + more;
      assert all[..|all| - 1] == parts;
    }
  }

  lemma HashStepMeaning(suite: Suite, k: Core, q: HashRequest, env: Env)
    requires Inv(k) && k.ctx.initialized > 0 && Hash(q).WellFormed() && q.hashType == Sha256
    ensures var o := HashStep(suite, k, q, env);
      var rc := o.reply.rc;
      var all := Buffered(k.ctx) + if rc != MemoryError then q.Data() else [];
      && rc in {Success, MemoryError, HardwareError, Unavailable}
      && Buffered(o.core.ctx) == (if Released(q, rc) then [] else all)
      && (q.digest.Some? && rc == Success ==> o.reply.out == suite.H(all))
      && (q.digest.Some? ==> rc != Unavailable)
      && o.core.dev == k.dev && o.core.ctx.aesKey == k.ctx.aesKey && o.core.ctx.initialized == k.ctx.initialized
  {
    assert Buffered(k.ctx) + [] == Buffered(k.ctx);
    assert Buffered(SelectHash(k).ctx) == Buffered(k.ctx);
  }

  /**
   * The code of a SHA-256 request, in every case. Only the empty message takes the two-step path,
   * so only then does the code of the update call matter.
   */
  lemma HashCodeExactly(suite: Suite, k: Core, q: HashRequest, env: Env)
    requires Inv(k) && k.ctx.initialized > 0 && Hash(q).WellFormed() && q.hashType == Sha256
    ensures var o := HashStep(suite, k, q, env);
      var rc, all := o.reply.rc, Buffered(k.ctx) + q.Data();
      && (rc == MemoryError <==> q.Data() != [] && !env.alloc)
      && (rc == Unavailable <==> q.Data() == [] && q.digest.None?)
      && (rc == HardwareError <==>
            rc != MemoryError && q.digest.Some? &&
            !(Good(env.algoRc) && (all == [] ==> Good(env.updateRc)) && Good(env.opRc)))
      && (rc == Success <==> rc != MemoryError && rc != Unavailable && rc != HardwareError)
      && (rc == HardwareError ==> !Good(o.core.ctx.vltRc))
  {
    assert Buffered(k.ctx) + [] == Buffered(k.ctx);
    assert Buffered(SelectHash(k).ctx) == Buffered(k.ctx);
  }

  lemma OtherHashes(suite: Suite, k: Core, q: HashRequest, env: Env)
    requires Hash(q).WellFormed() && q.hashType != Sha256
    ensures HashStep(suite, k, q, env) == Outcome(k, Reply(Unavailable, Hash(q).Before(), None))
  {}

  /** No other event changes the buffered bytes, except giving up the last use of the context. */
  lemma {:induction false} OtherStepsKeepBytes(suite: Suite, s: State, e: Event)
    requires Inv(s.core)
    requires e.IsHash() ==> Step(suite, s, e).1.rc == BadFuncArg
    ensures var t := Step(suite, s, e).0.core.ctx;
      Buffered(t) == if Gives(e) && t.initialized == 0 then [] else Buffered(s.core.ctx)
  {
    hide HashStep, CipherStep, RsaStep;
    if e.Callback? && e.info.Some? && e.hasCtx && s.core.ctx.initialized > 0 {
      match e.info.value
      case Hash(q) =>
        if q.hashType == Sha256 { HashStepMeaning(suite, s.core, q, e.env); } else { OtherHashes(suite, s.core, q, e.env); }
      case AesCbc(q) =>
        if q.aes in s.objects { CipherFrame(suite, s.core, s.objects[q.aes], q, e.env); }
      case RsaPk(q) => RsaFrame(suite, s.core, q, e.env);
      case _ =>
    }
  }

  lemma HashEvent(suite: Suite, s: State, e: Event)
    requires Inv(s.core) && e.IsHash() && Step(suite, s, e).1.rc != BadFuncArg
    ensures e.hasCtx && s.core.ctx.initialized > 0
    ensures var o := HashStep(suite, s.core, e.info.value.hash, e.env);
      Step(suite, s, e) == (s.(core := o.core), o.reply)
  {}

  /** The buffer is the message the callers' view of the run prescribes. */
  lemma {:induction false} BufferIsMessage(suite: Suite, es: seq<Event>)
    ensures Buffered(After(suite, es).core.ctx) == Message(Parts(suite, es))
  {
    if es == [] {
    } else {
      var s, e := After(suite, Before(es)), Last(es);
      BufferIsMessage(suite, Before(es));
      ReachableInv(suite, Before(es));
      UsesAreCounted(suite, es);
      if e.IsHash() && LastReply(suite, es).rc != BadFuncArg {
        HashEvent(suite, s, e);
        HashStepMeaning(suite, s.core, e.info.value.hash, e.env);
        MessageAppend(Parts(suite, Before(es)), e.info.value.hash, LastReply(suite, es).rc, |es| - 1);
      } else {
        OtherStepsKeepBytes(suite, s, e);
      }
    }
  }

  /**
   * Refinement: in every run, a successful finalize returns the hash of all bytes accepted since
   * the last releasing finalize, those of its own request included.
   */
  lemma {:induction false} HashRefinement(suite: Suite, es: seq<Event>)
    requires es != [] && Last(es).IsHash() && Last(es).info.value.hash.digest.Some?
    requires LastReply(suite, es).rc == Success
    ensures LastReply(suite, es).out ==
            suite.H(Message(Parts(suite, Before(es))) + Last(es).info.value.hash.Data())
  {
    var s, e := After(suite, Before(es)), Last(es);
    BufferIsMessage(suite, Before(es));
    ReachableInv(suite, Before(es));
    HashEvent(suite, s, e);
    HashStepMeaning(suite, s.core, e.info.value.hash, e.env);
  }

  // ----- Whose bytes

  /** The last event is a SHA-256 request that reaches the handler. */
  predicate Heard(suite: Suite, es: seq<Event>)
    requires es != []
  {
    Last(es).IsHash() && LastReply(suite, es).rc != BadFuncArg
  }

  /** The last event gives up the last use of the context. */
  predicate GivesUp(suite: Suite, es: seq<Event>)
    requires es != []
  {
    Gives(Last(es)) && Uses(es) == 0
  }

  /** Any successful finalize ends the message of the object it is made on, copy or not. */
  predicate Finalized(q: HashRequest, rc: Rc) { q.digest.Some? && rc == Success }

  /**
   * The message an object stands for, as its user sees it: what was accepted on it since it was
   * started or finalized, after what the object it was copied from stood for at the copy.
   */
  function Own(suite: Suite, es: seq<Event>, id: Option<nat>): seq<Part> {
    if es == [] then [] else
    var e, own := Last(es), Own(suite, Before(es), id);
    if Heard(suite, es) && Owner(e.info.value.hash) == id then
      var q, rc := e.info.value.hash, LastReply(suite, es).rc;
      if Finalized(q, rc) then [] else own + Accepted(q, rc, |es| - 1)
    else if e.CopyHash? && Some(e.to) == id then Own(suite, Before(es), Some(e.from))
    else if e.InitHash? && Some(e.hash) == id then []
    else own
  }

  /** What event `at` accepted counts for the object: it was made on it, or on its original before the copy. */
  predicate Credited(suite: Suite, es: seq<Event>, id: Option<nat>, at: nat) {
    if es == [] then false else
    var e, before := Last(es), Credited(suite, Before(es), id, at);
    if Heard(suite, es) && Owner(e.info.value.hash) == id then
      !Finalized(e.info.value.hash, LastReply(suite, es).rc) && (at == |es| - 1 || before)
    else if e.CopyHash? && Some(e.to) == id then Credited(suite, Before(es), Some(e.from), at)
    else if e.InitHash? && Some(e.hash) == id then false
    else before
  }

  /**
   * While the object, or its original before the copy, stood for some bytes, the buffer was
   * released on behalf of another object or the context was given up.
   */
  predicate Robbed(suite: Suite, es: seq<Event>, id: Option<nat>) {
    if es == [] then false else
    var e, before := Last(es), Robbed(suite, Before(es), id);
    var rc := LastReply(suite, es).rc;
    if Heard(suite, es) && Owner(e.info.value.hash) == id then before && !Finalized(e.info.value.hash, rc)
    else if (Heard(suite, es) && Released(e.info.value.hash, rc)) || GivesUp(suite, es) then
      before || Own(suite, Before(es), id) != []
    else if e.CopyHash? && Some(e.to) == id then Robbed(suite, Before(es), Some(e.from))
    else if e.InitHash? && Some(e.hash) == id then false
    else before
  }

  ghost predicate Ordered(parts: seq<Part>, n: nat) {
    && (forall i :: 0 <= i < |parts| ==> parts[i].at < n)
    && (forall i, j :: 0 <= i < j < |parts| ==> parts[i].at < parts[j].at)
  }

  lemma OrderedAppend(parts: seq<Part>, q: HashRequest, rc: Rc, at: nat)
    requires Ordered(parts, at)
    ensures Ordered(parts + Accepted(q, rc, at), at + 1)
  {}

  lemma {:induction false} PartsAreOrdered(suite: Suite, es: seq<Event>)
    ensures Ordered(Parts(suite, es), |es|)
  {
    if es == [] {
    } else {
      hide LastReply, Uses, Accepted;
      PartsAreOrdered(suite, Before(es));
      if Heard(suite, es) {
        OrderedAppend(Parts(suite, Before(es)), Last(es).info.value.hash, LastReply(suite, es).rc, |es| - 1);
      }
    }
  }

  lemma {:induction false} OwnIsOrdered(suite: Suite, es: seq<Event>, id: Option<nat>)
    ensures Ordered(Own(suite, es, id), |es|)
  {
    if es == [] {
    } else {
      hide LastReply, Uses, Accepted;
      OwnIsOrdered(suite, Before(es), id);
      if Heard(suite, es) && Owner(Last(es).info.value.hash) == id {
        OrderedAppend(Own(suite, Before(es), id), Last(es).info.value.hash, LastReply(suite, es).rc, |es| - 1);
      } else if Last(es).CopyHash? {
        OwnIsOrdered(suite, Before(es), Some(Last(es).from));
      }
    }
  }

  /**
   * Until the object is robbed everything it stands for is pending; once robbed, its first part is
   * older than anything pending.
   */
  ghost predicate IsShare(parts: seq<Part>, own: seq<Part>, robbed: bool) {
    if robbed then own != [] && forall i :: 0 <= i < |parts| ==> own[0].at < parts[i].at
    else forall i :: 0 <= i < |own| ==> own[i] in parts
  }

  lemma ShareGrows(parts: seq<Part>, own: seq<Part>, mine: bool, robbed: bool, q: HashRequest, rc: Rc, at: nat)
    requires IsShare(parts, own, robbed) && Ordered(own, at)
    ensures IsShare(parts + Accepted(q, rc, at), own + if mine then Accepted(q, rc, at) else [], robbed)
  {}

  lemma {:induction false} OwnShare(suite: Suite, es: seq<Event>, id: Option<nat>)
    ensures IsShare(Parts(suite, es), Own(suite, es, id), Robbed(suite, es, id))
  {
    if es == [] {
    } else {
      hide LastReply, Uses, Accepted;
      var before, e := Before(es), Last(es);
      OwnShare(suite, before, id);
      OwnIsOrdered(suite, before, id);
      if Heard(suite, es) {
        var q, rc := e.info.value.hash, LastReply(suite, es).rc;
        var parts, own := Parts(suite, before), Own(suite, before, id);
        ShareGrows(parts, own, Owner(q) == id, Robbed(suite, before, id), q, rc, |es| - 1);
        assert own + [] == own;
      } else if e.CopyHash? {
        OwnShare(suite, before, Some(e.from));
      }
    }
  }

  lemma {:induction false} NothingCreditedYet(suite: Suite, es: seq<Event>, id: Option<nat>, at: nat)
    requires at >= |es|
    ensures !Credited(suite, es, id, at)
  {
    if es == [] {
    } else {
      NothingCreditedYet(suite, Before(es), id, at);
      if Last(es).CopyHash? { NothingCreditedYet(suite, Before(es), Some(Last(es).from), at); }
    }
  }

  /** A pending part belongs to the object's message exactly if it is credited to the object. */
  lemma {:induction false} OwnIsCredited(suite: Suite, es: seq<Event>, id: Option<nat>, p: Part)
    requires p in Parts(suite, es)
    ensures p in Own(suite, es, id) <==> Credited(suite, es, id, p.at)
  {
    if es == [] {
    } else {
      hide LastReply, Uses;
      var before, e := Before(es), Last(es);
      PartsAreOrdered(suite, before);
      OwnIsOrdered(suite, before, id);
      if p in Parts(suite, before) {
        OwnIsCredited(suite, before, id, p);
        if e.CopyHash? { OwnIsCredited(suite, before, Some(e.from), p); }
      } else {
        assert p.at == |es| - 1;
        NothingCreditedYet(suite, before, id, p.at);
      }
    }
  }

  lemma EmptyIfNoMember(parts: seq<Part>)
    ensures (forall p :: p !in parts) ==> parts == []
  {
    if parts != [] { assert parts[0] in parts; }
  }

  lemma {:induction false} OrderedWithSameElements(a: seq<Part>, b: seq<Part>, n: nat)
    requires Ordered(a, n) && Ordered(b, n)
    requires forall p :: p in a <==> p in b
    ensures a == b
  {
    if a == [] {
      EmptyIfNoMember(b);
    } else {
      var x := a[|a| - 1];
      assert x in b;
      var y := b[|b| - 1];
      assert y in a;
      var a', b' := a[..|a| - 1], b[..|b| - 1];
      assert x.at == y.at && x == y;
      forall p ensures p in a' <==> p in b' {
        if p in a' { assert p in a && p.at < x.at; assert p in b; }
        if p in b' { assert p in b && p.at < x.at; assert p in a; }
      }
      OrderedWithSameElements(a', b', n);
      assert a == a' + [x] && b == b' + [y];
    }
  }

  ghost predicate AllCredited(suite: Suite, es: seq<Event>, id: Option<nat>, parts: seq<Part>) {
    forall i :: 0 <= i < |parts| ==> Credited(suite, es, id, parts[i].at)
  }

  lemma PendingIsOwnExactly(suite: Suite, es: seq<Event>, id: Option<nat>)
    ensures Parts(suite, es) == Own(suite, es, id) <==>
            AllCredited(suite, es, id, Parts(suite, es)) && !Robbed(suite, es, id)
  {
    var parts, own := Parts(suite, es), Own(suite, es, id);
    PartsAreOrdered(suite, es);
    OwnIsOrdered(suite, es, id);
    OwnShare(suite, es, id);
    forall p | p in parts ensures p in own <==> Credited(suite, es, id, p.at) {
      OwnIsCredited(suite, es, id, p);
    }
    assert Robbed(suite, es, id) && parts != [] ==> own[0].at < parts[0].at;
    if parts == own {
      forall i | 0 <= i < |parts| ensures Credited(suite, es, id, parts[i].at) { assert parts[i] in own; }
    } else if AllCredited(suite, es, id, parts) && !Robbed(suite, es, id) {
      OrderedWithSameElements(parts, own, |es|);
    }
  }

  /**
   * The buffer belongs to the context, not to the `wc_Sha256` object. In every run, what a
   * successful finalize hashes is, update by update, the message its object stands for if and only
   * if everything pending is credited to that object and the object has not been robbed.
   */
  lemma OwnDigestExactly(suite: Suite, es: seq<Event>)
    requires es != [] && Last(es).IsHash() && Last(es).info.value.hash.digest.Some?
    requires LastReply(suite, es).rc == Success
    ensures var before, q := Before(es), Last(es).info.value.hash;
      var id, parts := Owner(q), Parts(suite, before);
      && LastReply(suite, es).out == suite.H(Message(parts) + q.Data())
      && (parts == Own(suite, before, id) <==> AllCredited(suite, before, id, parts) && !Robbed(suite, before, id))
  {
    HashRefinement(suite, es);
    PendingIsOwnExactly(suite, Before(es), Owner(Last(es).info.value.hash));
  }

  /**
   * One stream at a time: an object is used only while everything pending is credited to it, and
   * the buffer is released, or the context given up, only while no other object stands for bytes.
   */
  ghost predicate OneAtATime(suite: Suite, es: seq<Event>) {
    es == [] ||
    (OneAtATime(suite, Before(es)) &&
     (Heard(suite, es) ==>
        var before, q := Before(es), Last(es).info.value.hash;
        && AllCredited(suite, before, Owner(q), Parts(suite, before))
        && (Released(q, LastReply(suite, es).rc) ==>
              forall other {:trigger Own(suite, before, other)} :: other != Owner(q) ==> Own(suite, before, other) == [])) &&
     (GivesUp(suite, es) ==>
        forall other {:trigger Own(suite, Before(es), other)} :: Own(suite, Before(es), other) == []))
  }

  lemma {:induction false} NobodyIsRobbed(suite: Suite, es: seq<Event>, id: Option<nat>)
    requires OneAtATime(suite, es)
    ensures !Robbed(suite, es, id)
  {
    if es == [] {
    } else {
      hide LastReply, Uses;
      NobodyIsRobbed(suite, Before(es), id);
      if Last(es).CopyHash? { NobodyIsRobbed(suite, Before(es), Some(Last(es).from)); }
    }
  }

  /**
   * Callers that keep to one stream at a time get exactly the digests of the messages their objects
   * stand for, copies taken and finalized along the way included.
   */
  lemma OneStreamGetsItsOwnDigest(suite: Suite, es: seq<Event>)
    requires es != [] && OneAtATime(suite, es)
    requires Last(es).IsHash() && Last(es).info.value.hash.digest.Some? && LastReply(suite, es).rc == Success
    ensures var q := Last(es).info.value.hash;
      LastReply(suite, es).out == suite.H(Message(Own(suite, Before(es), Owner(q))) + q.Data())
  {
    OwnDigestExactly(suite, es);
    NobodyIsRobbed(suite, Before(es), Owner(Last(es).info.value.hash));
  }

  // ----- Three runs in which an object does not get its own digest

  function Update(id: nat, isCopy: bool, data: seq<byte>, ok: Env): Event {
    Callback(true, Some(Hash(HashRequest(Sha256, Some(data), None, Some(ShaObject(id, isCopy))))), false, ok)
  }

  function Finalize(id: nat, isCopy: bool, buffer: Digest, ok: Env): Event {
    Callback(true, Some(Hash(HashRequest(Sha256, None, Some(buffer), Some(ShaObject(id, isCopy))))), false, ok)
  }

  predicate Fine(ok: Env) {
    ok.alloc && Good(ok.openRc) && Good(ok.algoRc) && Good(ok.updateRc) && Good(ok.opRc)
  }

  predicate InUse(suite: Suite, es: seq<Event>) { After(suite, es).core.ctx.initialized > 0 }

  lemma InitWorks(suite: Suite, ok: Env, id: Option<nat>)
    requires Fine(ok)
    ensures InUse(suite, [Init(ok)]) && Parts(suite, [Init(ok)]) == []
    ensures Own(suite, [Init(ok)], id) == []
  {
    assert Before([Init(ok)]) == [];
  }

  lemma CopyWorks(suite: Suite, es: seq<Event>, from: nat, to: nat, id: Option<nat>)
    requires InUse(suite, es)
    ensures InUse(suite, es + [CopyHash(from, to)]) && Parts(suite, es + [CopyHash(from, to)]) == Parts(suite, es)
    ensures Own(suite, es + [CopyHash(from, to)], id) == Own(suite, es, if id == Some(to) then Some(from) else id)
  {
    AfterAppend(suite, es, CopyHash(from, to));
    assert Before(es + [CopyHash(from, to)]) == es;
  }

  /** In an environment where everything works, a request with data or a digest succeeds. */
  lemma HashWorks(suite: Suite, es: seq<Event>, e: Event, id: Option<nat>)
    requires InUse(suite, es) && e.IsHash() && e.hasCtx && Fine(e.env)
    requires e.info.value.hash.Data() != [] || e.info.value.hash.digest.Some?
    ensures InUse(suite, es + [e]) && LastReply(suite, es + [e]).rc == Success
    ensures var q := e.info.value.hash;
      && Parts(suite, es + [e]) == (if Released(q, Success) then [] else Parts(suite, es) + Accepted(q, Success, |es|))
      && (q.digest.Some? ==> LastReply(suite, es + [e]).out == suite.H(Message(Parts(suite, es)) + q.Data()))
      && Own(suite, es + [e], id) ==
           (if id != Owner(q) then Own(suite, es, id)
            else if q.digest.Some? then [] else Own(suite, es, id) + Accepted(q, Success, |es|))
      && (id != Owner(q) && Released(q, Success) && Own(suite, es, id) != [] ==> Robbed(suite, es + [e], id))
  {
    hide HashStep;
    var s, q := After(suite, es), e.info.value.hash;
    assert Before(es + [e]) == es && Last(es + [e]) == e;
    ReachableInv(suite, es);
    HashCodeExactly(suite, s.core, q, e.env);
    HashFrame(suite, s.core, q, e.env);
    AfterAppend(suite, es, e);
    if q.digest.Some? { HashRefinement(suite, es + [e]); }
  }

  lemma UpdateWorks(suite: Suite, es: seq<Event>, id: nat, isCopy: bool, data: seq<byte>, ok: Env, who: Option<nat>)
    requires InUse(suite, es) && data != [] && Fine(ok)
    ensures var es', p := es + [Update(id, isCopy, data, ok)], Part(Some(id), |es|, data);
      && InUse(suite, es') && Parts(suite, es') == Parts(suite, es) + [p]
      && Own(suite, es', who) == Own(suite, es, who) + if who == Some(id) then [p] else []
  {
    HashWorks(suite, es, Update(id, isCopy, data, ok), who);
    assert Own(suite, es, who) + [] == Own(suite, es, who);
  }

  lemma FinalizeWorks(suite: Suite, es: seq<Event>, id: nat, isCopy: bool, buffer: Digest, ok: Env, who: Option<nat>)
    requires InUse(suite, es) && Fine(ok)
    ensures var es' := es + [Finalize(id, isCopy, buffer, ok)];
      && InUse(suite, es') && Parts(suite, es') == (if isCopy then Parts(suite, es) else [])
      && Own(suite, es', who) == (if who == Some(id) then [] else Own(suite, es, who))
      && (!isCopy && who != Some(id) && Own(suite, es, who) != [] ==> Robbed(suite, es', who))
      && LastReply(suite, es').rc == Success && LastReply(suite, es').out == suite.H(Message(Parts(suite, es)))
  {
    HashWorks(suite, es, Finalize(id, isCopy, buffer, ok), who);
    assert Message(Parts(suite, es)) + [] == Message(Parts(suite, es)) && Parts(suite, es) + [] == Parts(suite, es);
  }

  lemma OneOrTwoParts(p: Part, q: Part)
    ensures Message([]) == [] && Message([p]) == p.data && Message([p, q]) == p.data + q.data
  {
    assert [p][..0] == [] && [p, q][..1] == [p] && [] + p.data == p.data;
  }

  /** Object 1 is given `x` and copied to object 2: both stand for `x`, which is all that is pending. */
  lemma CopiedRun(suite: Suite, x: seq<byte>, ok: Env) returns (es: seq<Event>, p: Part)
    requires x != [] && Fine(ok)
    ensures es == [Init(ok)] + [Update(1, false, x, ok)] + [CopyHash(1, 2)] && |es| == 3
    ensures p == Part(Some(1), 1, x) && InUse(suite, es) && Parts(suite, es) == [p]
    ensures Own(suite, es, Some(1)) == [p] && Own(suite, es, Some(2)) == [p]
  {
    hide LastReply, After, Parts, Own, Robbed, InUse, Message, Update;
    var es0: seq<Event> := [Init(ok)];
    var es1 := es0 + [Update(1, false, x, ok)];
    es, p := es1 + [CopyHash(1, 2)], Part(Some(1), 1, x);
    InitWorks(suite, ok, Some(1));
    UpdateWorks(suite, es0, 1, false, x, ok, Some(1));
    CopyWorks(suite, es1, 1, 2, Some(1));
    CopyWorks(suite, es1, 1, 2, Some(2));
  }

  /**
   * The first of two interleaved streams to finalize gets the digest of both messages, and the
   * second, though nothing foreign is pending then, has been robbed of `y` and gets the digest of
   * the empty message.
   */
  lemma InterleavedStreamsMix(suite: Suite, x: seq<byte>, y: seq<byte>, buffer: Digest, ok: Env)
    requires x != [] && y != [] && Fine(ok)
    ensures var es := [Init(ok)] + [Update(1, false, x, ok)] + [Update(2, false, y, ok)] + [Finalize(1, false, buffer, ok)];
      var last := es + [Finalize(2, false, buffer, ok)];
      && LastReply(suite, es).rc == Success && LastReply(suite, es).out == suite.H(x + y)
      && LastReply(suite, last).rc == Success && LastReply(suite, last).out == suite.H([])
      && Parts(suite, es) == [] && Message(Own(suite, es, Some(2))) == y && Robbed(suite, es, Some(2))
  {
    hide LastReply, After, Parts, Own, Robbed, InUse, Message, Update, Finalize;
    var es0: seq<Event> := [Init(ok)];
    var es1 := es0 + [Update(1, false, x, ok)];
    var es2 := es1 + [Update(2, false, y, ok)];
    var p, q := Part(Some(1), 1, x), Part(Some(2), 2, y);
    InitWorks(suite, ok, Some(2));
    UpdateWorks(suite, es0, 1, false, x, ok, Some(2));
    UpdateWorks(suite, es1, 2, false, y, ok, Some(2));
    assert Parts(suite, es2) == [p, q] && Own(suite, es2, Some(2)) == [q];
    OneOrTwoParts(p, q);
    OneOrTwoParts(q, q);
    FinalizeWorks(suite, es2, 1, false, buffer, ok, Some(2));
    FinalizeWorks(suite, es2 + [Finalize(1, false, buffer, ok)], 2, false, buffer, ok, Some(2));
  }

  /**
   * A copy outlives its original: object 2 is copied from object 1 when that has been given `x`,
   * object 1 finalizes and releases the buffer, and the copy, which stands for `x`, gets the digest
   * of the empty message.
   */
  lemma OriginalRobsCopy(suite: Suite, x: seq<byte>, buffer: Digest, ok: Env)
    requires x != [] && Fine(ok)
    ensures var es := [Init(ok)] + [Update(1, false, x, ok)] + [CopyHash(1, 2)] + [Finalize(1, false, buffer, ok)];
      var last := es + [Finalize(2, true, buffer, ok)];
      && LastReply(suite, last).rc == Success && LastReply(suite, last).out == suite.H([])
      && Parts(suite, es) == [] && Message(Own(suite, es, Some(2))) == x && Robbed(suite, es, Some(2))
  {
    hide LastReply, After, Parts, Own, Robbed, InUse, Message, Update, Finalize;
    var es2, p := CopiedRun(suite, x, ok);
    FinalizeWorks(suite, es2, 1, false, buffer, ok, Some(2));
    FinalizeWorks(suite, es2 + [Finalize(1, false, buffer, ok)], 2, true, buffer, ok, Some(2));
    OneOrTwoParts(p, p);
  }

  /**
   * A copy finalized first, its original afterwards: both get the digest of `x`, in a run from the
   * start where the copy was taken when the original had been given `x`.
   */
  lemma CopyThenOriginal(suite: Suite, x: seq<byte>, buffer: Digest, ok: Env)
    requires x != [] && Fine(ok)
    ensures var es := [Init(ok)] + [Update(1, false, x, ok)] + [CopyHash(1, 2)] + [Finalize(2, true, buffer, ok)];
      var last := es + [Finalize(1, false, buffer, ok)];
      && LastReply(suite, es).rc == Success && LastReply(suite, es).out == suite.H(x)
      && LastReply(suite, last).rc == Success && LastReply(suite, last).out == suite.H(x)
  {
    hide LastReply, After, Parts, Own, Robbed, InUse, Message, Update, Finalize;
    var es2, p := CopiedRun(suite, x, ok);
    FinalizeWorks(suite, es2, 2, true, buffer, ok, Some(1));
    FinalizeWorks(suite, es2 + [Finalize(2, true, buffer, ok)], 1, false, buffer, ok, Some(1));
    OneOrTwoParts(p, p);
  }

  /**
   * A copy goes its own way: object 2 is copied from object 1 when that has been given `x` and is
   * given `z`; object 1, which stands for `x`, gets the digest of `x` and `z`.
   */
  lemma CopyTaintsOriginal(suite: Suite, x: seq<byte>, z: seq<byte>, buffer: Digest, ok: Env)
    requires x != [] && z != [] && Fine(ok)
    ensures var es := [Init(ok)] + [Update(1, false, x, ok)] + [CopyHash(1, 2)] + [Update(2, true, z, ok)];
      var last := es + [Finalize(1, false, buffer, ok)];
      && LastReply(suite, last).rc == Success && LastReply(suite, last).out == suite.H(x + z)
      && Message(Own(suite, es, Some(1))) == x && !AllCredited(suite, es, Some(1), Parts(suite, es))
  {
    hide LastReply, After, Parts, Own, Robbed, InUse, Message, Update, Finalize, Credited;
    var es2, p := CopiedRun(suite, x, ok);
    var es3, q := es2 + [Update(2, true, z, ok)], Part(Some(2), 3, z);
    UpdateWorks(suite, es2, 2, true, z, ok, Some(1));
    assert Parts(suite, es3) == [p, q] && Own(suite, es3, Some(1)) == [p];
    FinalizeWorks(suite, es3, 1, false, buffer, ok, Some(1));
    OneOrTwoParts(p, q);
    assert q in Parts(suite, es3) && q !in Own(suite, es3, Some(1));
    OwnIsCredited(suite, es3, Some(1), q);
    assert Parts(suite, es3)[1].at == q.at;
  }

  // ----- Finalizes that leave no trace

  /** A finalize without data that is a copy, or that fails. */
  ghost predicate Inert(suite: Suite, s: State, e: Event) {
    e.IsHash() && e.info.value.hash.digest.Some? && e.info.value.hash.Data() == [] &&
    ((e.info.value.hash.sha256.Some? && e.info.value.hash.sha256.value.isCopy) || Step(suite, s, e).1.rc != Success)
  }

  /** The run with its inert finalizes left out. */
  ghost function Stripped(suite: Suite, es: seq<Event>): seq<Event> {
    if es == [] then []
    else if Inert(suite, After(suite, Before(es)), Last(es)) then Stripped(suite, Before(es))
    else Stripped(suite, Before(es)) + [Last(es)]
  }

  /** Equal but for the last device code and the hash selector. */
  ghost predicate Similar(s: State, t: State) {
    && s.objects == t.objects && s.core.dev == t.core.dev && s.core.heap == t.core.heap
    && s.core.ctx.initialized == t.core.ctx.initialized
    && s.core.ctx.m == t.core.ctx.m && s.core.ctx.aesKey == t.core.ctx.aesKey
  }

  lemma FinalizeRespectsSimilar(suite: Suite, s: State, t: State, q: HashRequest, env: Env)
    requires Similar(s, t) && q.digest.Some? && |q.digest.value| == 32
    ensures var o, p := FinalizeStep(suite, s.core, q, env), FinalizeStep(suite, t.core, q, env);
      o.reply == p.reply && Similar(s.(core := o.core), t.(core := p.core))
  {}

  lemma {:induction false} HashRespectsSimilar(suite: Suite, s: State, t: State, q: HashRequest, env: Env)
    requires Inv(s.core) && Inv(t.core) && Similar(s, t) && Hash(q).WellFormed()
    ensures var o, p := HashStep(suite, s.core, q, env), HashStep(suite, t.core, q, env);
      o.reply == p.reply && Similar(s.(core := o.core), t.(core := p.core))
  {
    hide FinalizeStep;
    if q.hashType == Sha256 {
      var k, l := SelectHash(s.core), SelectHash(t.core);
      assert Similar(s.(core := k), t.(core := l)) && Buffered(k.ctx) == Buffered(l.ctx);
      if q.digest.Some? {
        FinalizeRespectsSimilar(suite, s.(core := k), t.(core := l), q, env);
        if q.Data() != [] {
          FinalizeRespectsSimilar(suite, s.(core := Append(k, q.Data())), t.(core := Append(l, q.Data())), q, env);
        }
      }
    }
  }

  lemma CipherRespectsSimilar(suite: Suite, s: State, t: State, a: AesObject, q: CipherRequest, env: Env)
    requires Similar(s, t) && q.InBounds()
    ensures var o, p := CipherStep(suite, s.core, a, q, env), CipherStep(suite, t.core, a, q, env);
      o.reply == p.reply && o.aes == p.aes && Similar(s.(core := o.core), t.(core := p.core))
  {}

  lemma RsaRespectsSimilar(suite: Suite, s: State, t: State, q: RsaRequest, env: Env)
    requires Similar(s, t) && q.InBounds()
    ensures var o, p := RsaStep(suite, s.core, q, env), RsaStep(suite, t.core, q, env);
      o.reply == p.reply && Similar(s.(core := o.core), t.(core := p.core))
  {}

  lemma CallbackRespectsSimilar(suite: Suite, s: State, t: State, hasCtx: bool, info: Option<Request>, env: Env)
    requires Inv(s.core) && Inv(t.core) && Similar(s, t)
    ensures CallbackStep(suite, s, hasCtx, info, env).1 == CallbackStep(suite, t, hasCtx, info, env).1
    ensures Similar(CallbackStep(suite, s, hasCtx, info, env).0, CallbackStep(suite, t, hasCtx, info, env).0)
  {
    hide HashStep, CipherStep, RsaStep, Inv;
    if info.Some? {
      match info.value
      case Hash(q) => HashRespectsSimilar(suite, s, t, q, env);
      case AesCbc(q) =>
        if q.aes in s.objects { CipherRespectsSimilar(suite, s, t, s.objects[q.aes], q, env); }
      case RsaPk(q) => RsaRespectsSimilar(suite, s, t, q, env);
      case _ =>
    }
  }

  /** Similar states answer every event alike and stay similar. */
  lemma StepRespectsSimilar(suite: Suite, s: State, t: State, e: Event)
    requires Inv(s.core) && Inv(t.core) && Similar(s, t)
    ensures Step(suite, s, e).1 == Step(suite, t, e).1
    ensures Similar(Step(suite, s, e).0, Step(suite, t, e).0)
  {
    hide CallbackStep, Inv, Crypt, Splice;
    if e.Callback? {
      CallbackRespectsSimilar(suite, s, t, e.hasCtx, e.info, e.env);
    }
  }

  lemma InertIsSilent(suite: Suite, s: State, e: Event)
    requires Inv(s.core) && Inert(suite, s, e)
    ensures Similar(Step(suite, s, e).0, s)
  {}

  lemma {:induction false} StrippedSimilar(suite: Suite, es: seq<Event>)
    ensures Similar(After(suite, es), After(suite, Stripped(suite, es)))
  {
    if es == [] {
    } else {
      var s, e := After(suite, Before(es)), Last(es);
      var kept := Stripped(suite, Before(es));
      StrippedSimilar(suite, Before(es));
      ReachableInv(suite, Before(es));
      ReachableInv(suite, kept);
      if Inert(suite, s, e) {
        InertIsSilent(suite, s, e);
      } else {
        assert Before(kept + [e]) == kept && Last(kept + [e]) == e;
        StepRespectsSimilar(suite, s, After(suite, kept), e);
      }
    }
  }

  /**
   * Copy finalizes and failed finalizes are transparent: leave all of them out of a run, and every
   * other event gets the reply it got before, device results and digests included.
   */
  lemma {:induction false} InertFinalizesAreTransparent(suite: Suite, es: seq<Event>, e: Event)
    ensures LastReply(suite, es + [e]) == LastReply(suite, Stripped(suite, es) + [e])
  {
    var kept := Stripped(suite, es);
    assert Before(es + [e]) == es && Before(kept + [e]) == kept;
    StrippedSimilar(suite, es);
    ReachableInv(suite, es);
    ReachableInv(suite, kept);
    StepRespectsSimilar(suite, After(suite, es), After(suite, kept), e);
  }

  lemma SimilarStep(suite: Suite, es: seq<Event>, es': seq<Event>, e: Event)
    requires Similar(After(suite, es), After(suite, es'))
    ensures Similar(After(suite, es + [e]), After(suite, es' + [e]))
    ensures LastReply(suite, es + [e]) == LastReply(suite, es' + [e])
  {
    hide Step, Similar, Inv;
    AfterAppend(suite, es, e);
    AfterAppend(suite, es', e);
    ReachableInv(suite, es);
    ReachableInv(suite, es');
    StepRespectsSimilar(suite, After(suite, es), After(suite, es'), e);
  }

  /** Similar states stay similar over any continuation. */
  lemma {:induction false} SimilarOver(suite: Suite, es: seq<Event>, es': seq<Event>, mid: seq<Event>)
    requires Similar(After(suite, es), After(suite, es'))
    ensures Similar(After(suite, es + mid), After(suite, es' + mid))
  {
    hide After, Similar;
    if mid == [] {
      assert es + mid == es && es' + mid == es';
    } else {
      var a, b := es + Before(mid), es' + Before(mid);
      SimilarOver(suite, es, es', Before(mid));
      SimilarStep(suite, a, b, Last(mid));
      assert es + mid == a + [Last(mid)] && es' + mid == b + [Last(mid)];
    }
  }

  /**
   * Take any run and any place in it. A SHA-256 finalize without data on an object whose ISCOPY
   * flag is set, inserted there, changes no reply to any later event; and if it succeeds, it
   * returns the digest of the bytes pending at that place.
   */
  lemma {:induction false} FlaggedFinalizeIsTransparent(suite: Suite, es: seq<Event>, f: Event, mid: seq<Event>, e: Event)
    requires f.Callback? && f.info.Some? && f.info.value.Hash? && f.info.value.hash.hashType == Sha256
    requires var q := f.info.value.hash;
      && q.digest.Some? && (q.input == None || q.input == Some([]))
      && q.sha256.Some? && q.sha256.value.isCopy
    ensures LastReply(suite, es + [f] + mid + [e]) == LastReply(suite, es + mid + [e])
    ensures LastReply(suite, es + [f]).rc == Success ==>
      LastReply(suite, es + [f]).out == suite.H(Message(Parts(suite, es)))
  {
    assert Before(es + [f]) == es && Last(es + [f]) == f;
    ReachableInv(suite, es);
    AfterAppend(suite, es, f);
    InertIsSilent(suite, After(suite, es), f);
    SimilarOver(suite, es + [f], es, mid);
    SimilarStep(suite, es + [f] + mid, es + mid, e);
    if LastReply(suite, es + [f]).rc == Success {
      HashRefinement(suite, es + [f]);
      assert Message(Parts(suite, es)) + [] == Message(Parts(suite, es));
    }
  }

  // ----- What a finalize leaves in the buffer

  /**
   * In every run, on a context in use: a finalize on an object whose ISCOPY flag is set leaves in
   * the buffer what was there and its own bytes, whatever its code (only bytes refused for lack of
   * memory are not added); a successful finalize on no object, or on one without the flag, leaves
   * the buffer empty.
   */
  lemma {:induction false} FinalizeLeaves(suite: Suite, es: seq<Event>)
    requires es != [] && Uses(Before(es)) > 0
    requires Last(es).Callback? && Last(es).hasCtx && Last(es).info.Some? && Last(es).info.value.Hash?
    requires Last(es).info.value.hash.hashType == Sha256 && Last(es).info.value.hash.digest.Some?
    ensures var q, rc := Last(es).info.value.hash, LastReply(suite, es).rc;
      var data := if q.input.None? then [] else q.input.value;
      var before, after := After(suite, Before(es)).core.ctx, After(suite, es).core.ctx;
      && (q.sha256.Some? && q.sha256.value.isCopy ==>
            Buffered(after) == Buffered(before) + if rc == MemoryError then [] else data)
      && (rc == Success && (q.sha256.None? || !q.sha256.value.isCopy) ==> after.m == None && after.hashType == NoHash)
  {
    var s, e := After(suite, Before(es)), Last(es);
    UsesAreCounted(suite, Before(es));
    ReachableInv(suite, Before(es));
    HashStepMeaning(suite, s.core, e.info.value.hash, e.env);
  }

  // ----- Retrying a failed finalize

  /** The last event has no hash bytes accepted, releases nothing and does not give up the last use. */
  predicate Quiet(suite: Suite, es: seq<Event>)
    requires es != []
  {
    var e, rc := Last(es), LastReply(suite, es).rc;
    && (e.IsHash() && rc != BadFuncArg ==>
          Accepted(e.info.value.hash, rc, 0) == [] && !Released(e.info.value.hash, rc))
    && !(Gives(e) && Uses(es) == 0)
  }

  /** Every event of `mid`, run after `es`, is quiet. */
  predicate QuietAfter(suite: Suite, es: seq<Event>, mid: seq<Event>) {
    mid == [] || (QuietAfter(suite, es, Before(mid)) && Quiet(suite, es + mid))
  }

  lemma {:induction false} PartsOverQuiet(suite: Suite, es: seq<Event>, mid: seq<Event>)
    requires QuietAfter(suite, es, mid)
    ensures Parts(suite, es + mid) == Parts(suite, es)
  {
    if mid == [] {
      assert es + mid == es;
    } else {
      PartsOverQuiet(suite, es, Before(mid));
      assert Before(es + mid) == es + Before(mid) && Last(es + mid) == Last(mid);
    }
  }

  /**
   * Retry: whatever data came with a finalize the device failed, and whatever else happens in
   * between short of new data, a release or the end of use, a later finalize without data returns
   * the digest that was owed.
   */
  lemma {:induction false} RetryReturnsOwedDigest(suite: Suite, es: seq<Event>, failed: Event, mid: seq<Event>, retry: Event)
    requires failed.IsHash() && LastReply(suite, es + [failed]).rc == HardwareError
    requires QuietAfter(suite, es + [failed], mid)
    requires retry.IsHash() && retry.info.value.hash.Data() == [] && retry.info.value.hash.digest.Some?
    requires LastReply(suite, es + [failed] + mid + [retry]).rc == Success
    ensures LastReply(suite, es + [failed] + mid + [retry]).out ==
            suite.H(Message(Parts(suite, es)) + failed.info.value.hash.Data())
  {
    var es1 := es + [failed];
    var es2 := es1 + mid + [retry];
    assert Before(es1) == es && Last(es1) == failed && Before(es2) == es1 + mid && Last(es2) == retry;
    HashRefinement(suite, es2);
    PartsOverQuiet(suite, es1, mid);
    assert Parts(suite, es1) == Parts(suite, es) + Accepted(failed.info.value.hash, HardwareError, |es|);
    MessageAppend(Parts(suite, es), failed.info.value.hash, HardwareError, |es|);
    assert Message(Parts(suite, es1)) + [] == Message(Parts(suite, es1));
  }
}
