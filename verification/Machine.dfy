/**
 * The VaultIC crypto-callback port as a state machine over values.
 *
 * A step is one call made by wolfCrypt or by the application. What the outside world decides
 * (does an allocation succeed, what does each device call return) is the step's `Env`.
 */
module Machine {
  import opened Bytes
  import opened Cbc

  // ----- Return codes

  /** Vendor return codes: the two values that mean success, and everything else. */
  datatype VltRc = VltZero | VltOk | VltError(code: int)

  /** wolfCrypt return codes; `OtherError` is whatever wolfCrypt's own key export reports. */
  datatype Rc =
    | Success | BadFuncArg | MemoryError | BufferError | HardwareError | InitError | Unavailable
    | OtherError(code: int)

  predicate Good(v: VltRc) { !v.VltError? }

  function TranslateError(v: VltRc): Rc {
    match v
    case VltZero => Success
    case VltOk => Success
    case VltError(_) => HardwareError
  }

  // ----- The device, the allocator and the context

  datatype KeyObject = AesKey(bytes: seq<byte>) | RsaPublicKey(n: seq<byte>, e: seq<byte>)

  datatype Slot = Slot(group: int, id: int)

  const TMP_AES := Slot(0xBB, 0x01)
  const TMP_RSA := Slot(0xBB, 0x03)

  type Slots = map<Slot, KeyObject>

  /** `opens` counts successful opens, `closes` counts close calls. */
  datatype Dev = Dev(isOpen: bool, slots: Slots, opens: nat, closes: nat)

  /** Buffers ever handed out and ever given back. */
  datatype Ledger = Ledger(allocs: nat, frees: nat)

  datatype HashType = NoHash | Sha | Sha224 | Sha256 | Sha384 | Sha512 | OtherHash(code: int)

  /** `ccbVaultIc_Context`: a buffer is `None` where the C pointer is NULL. */
  datatype Ctx = Ctx(
    initialized: nat,
    vltRc: VltRc,
    hashType: HashType,
    m: Option<seq<byte>>,
    aesKey: Option<seq<byte>>)

  const CLEARED := Ctx(0, VltZero, NoHash, None, None)

  datatype Core = Core(ctx: Ctx, dev: Dev, heap: Ledger)

  /** The part of wolfCrypt's `Aes` the port uses: the key and the chaining register. */
  datatype AesObject = AesObject(key: seq<byte>, reg: Block)

  datatype State = State(core: Core, objects: map<nat, AesObject>)

  const START := State(Core(CLEARED, Dev(false, map[], 0, 0), Ledger(0, 0)), map[])

  /**
   * What the environment decides during one step. `junk` is what the device leaves in an output
   * buffer when a call fails or its contract says nothing; `found` is what the slots hold when
   * the device is opened; `exportRc` is wolfCrypt's code for exporting an RSA key that fits.
   */
  datatype Env = Env(
    alloc: bool,
    openRc: VltRc, closeRc: VltRc,
    deleteRc: VltRc, putRc: VltRc, algoRc: VltRc, updateRc: VltRc, opRc: VltRc,
    found: Slots,
    junk: seq<byte>, produced: nat,
    exportRc: Rc)

  // ----- Requests and replies

  datatype Command = Register | Unregister | OtherCommand

  /** The `wc_Sha256` object of a request: which one it is and its ISCOPY flag. */
  datatype ShaObject = ShaObject(id: nat, isCopy: bool)

  /** `input` is `None` for a NULL pointer; `digest` holds the caller's buffer, `None` for NULL. */
  datatype HashRequest = HashRequest(
    hashType: HashType, input: Option<seq<byte>>, digest: Option<seq<byte>>, sha256: Option<ShaObject>)
  {
    function Data(): seq<byte> { if input.None? then [] else input.value }
    predicate Releases() { sha256.None? || !sha256.value.isCopy }
  }

  /**
   * An AES-CBC request. `in` and `out` are offsets into one caller memory, so they may coincide or
   * overlap in any way. `aes` names the object; a name that is not in the state is a NULL pointer.
   */
  datatype CipherRequest = CipherRequest(
    aes: nat, encrypt: bool, mem: seq<byte>, inOff: nat, outOff: nat, sz: nat)
  {
    predicate InBounds() { inOff + sz <= |mem| && outOff + sz <= |mem| }
    function Input(): seq<byte> requires InBounds() { mem[inOff..inOff + sz] }
    function Blocks(): nat { sz / 16 }
  }

  datatype RsaKind = PublicDecrypt | PublicEncrypt | PrivateDecrypt | PrivateEncrypt | OtherRsa

  /** The public part of an `RsaKey` object: modulus and exponent, big-endian. */
  datatype RsaKey = RsaKey(n: seq<byte>, e: seq<byte>)

  datatype RsaRequest = RsaRequest(
    kind: RsaKind, key: RsaKey, mem: seq<byte>, inOff: nat, outOff: nat, inLen: nat, outLen: Option<nat>)
  {
    predicate InBounds() { inOff + inLen <= |mem| && outOff + inLen <= |mem| }
    function Input(): seq<byte> requires InBounds() { mem[inOff..inOff + inLen] }
    predicate IsPublic() { kind.PublicDecrypt? || kind.PublicEncrypt? }
  }

  /** `Unsupported` stands for every algorithm the dispatcher and its handlers decline. */
  datatype Info =
    | Cmd(command: Command)
    | Hash(hash: HashRequest)
    | AesCbc(cipher: CipherRequest)
    | RsaPk(rsa: RsaRequest)
    | Unsupported
  {
    predicate WellFormed() {
      match this
      case Hash(q) => q.digest.Some? ==> |q.digest.value| == 32
      case AesCbc(q) => q.InBounds()
      case RsaPk(q) => q.InBounds()
      case _ => true
    }

    /** The caller memory a handler may write, before the call. */
    function Before(): seq<byte> {
      match this
      case Hash(q) => if q.digest.Some? then q.digest.value else []
      case AesCbc(q) => q.mem
      case RsaPk(q) => q.mem
      case _ => []
    }

    function LenBefore(): Option<nat> {
      if RsaPk? then rsa.outLen else None
    }
  }

  type Request = i: Info | i.WellFormed() witness Unsupported

  /** The code returned, the caller memory after the call, and `*outLen` after the call. */
  datatype Reply = Reply(rc: Rc, out: seq<byte>, outLen: Option<nat>)

  datatype Outcome = Outcome(core: Core, reply: Reply)

  // ----- Use count

  function InitStep(k: Core, env: Env): (Core, Rc) {
    if k.ctx.initialized > 0 then
      (k.(ctx := k.ctx.(initialized := k.ctx.initialized + 1)), Success)
    else if Good(env.openRc) then
      (k.(ctx := CLEARED.(vltRc := env.openRc, initialized := 1),
          dev := Dev(true, env.found, k.dev.opens + 1, k.dev.closes)), Success)
    else
      (k.(ctx := CLEARED.(vltRc := env.openRc)), InitError)
  }

  function Count<T>(o: Option<T>): nat { if o.Some? then 1 else 0 }

  function CleanupStep(k: Core, env: Env): Core {
    if k.ctx.initialized == 0 then k
    else if k.ctx.initialized > 1 then
      k.(ctx := k.ctx.(initialized := k.ctx.initialized - 1))
    else
      Core(CLEARED.(vltRc := env.closeRc),
           k.dev.(isOpen := false, closes := k.dev.closes + 1),
           k.heap.(frees := k.heap.frees + Count(k.ctx.m) + Count(k.ctx.aesKey)))
  }

  // ----- SHA-256

  /** Buffered bytes, whether or not a buffer is allocated. */
  function Buffered(c: Ctx): seq<byte> { if c.m.Some? then c.m.value else [] }

  function DropMessage(k: Core, hashType: HashType): Core {
    k.(ctx := k.ctx.(m := None, hashType := hashType),
       heap := k.heap.(frees := k.heap.frees + Count(k.ctx.m)))
  }

  function SelectHash(k: Core): Core {
    if k.ctx.hashType == Sha256 then k else DropMessage(k, Sha256)
  }

  function Append(k: Core, data: seq<byte>): Core {
    k.(ctx := k.ctx.(m := Some(Buffered(k.ctx) + data)),
       heap := Ledger(k.heap.allocs + 1, k.heap.frees + Count(k.ctx.m)))
  }

  /** Return codes of the device calls a finalize makes, in order, up to the first failure. */
  function FinalizeRc(k: Core, env: Env): VltRc {
    if !Good(env.algoRc) then env.algoRc
    else if k.ctx.m.None? && !Good(env.updateRc) then env.updateRc
    else env.opRc
  }

  /** Did the device reach the call that writes the digest buffer? */
  predicate DigestWritten(k: Core, env: Env) {
    Good(env.algoRc) && (k.ctx.m.None? ==> Good(env.updateRc))
  }

  function FinalizeStep(suite: Suite, k: Core, q: HashRequest, env: Env): Outcome
    requires q.digest.Some? && |q.digest.value| == 32
  {
    var rc := FinalizeRc(k, env);
    var k1 := k.(ctx := k.ctx.(vltRc := rc));
    if Good(rc) then
      Outcome(if q.Releases() then DropMessage(k1, NoHash) else k1,
              Reply(Success, suite.H(Buffered(k.ctx)), None))
    else
      Outcome(k1, Reply(HardwareError, if DigestWritten(k, env) then Fit(env.junk, 32) else q.digest.value, None))
  }

  function HashStep(suite: Suite, k: Core, q: HashRequest, env: Env): Outcome
    requires Hash(q).WellFormed()
  {
    var kept := Hash(q).Before();
    if q.hashType != Sha256 then Outcome(k, Reply(Unavailable, kept, None)) else
    var k1 := SelectHash(k);
    if q.Data() != [] && !env.alloc then Outcome(k1, Reply(MemoryError, kept, None)) else
    var k2 := if q.Data() != [] then Append(k1, q.Data()) else k1;
    if q.digest.Some? then FinalizeStep(suite, k2, q, env)
    else Outcome(k2, Reply(if q.Data() != [] then Success else Unavailable, kept, None))
  }

  // ----- AES-128-CBC

  function DeleteKey(slots: Slots, slot: Slot, rc: VltRc): Slots {
    if Good(rc) then slots - {slot} else slots
  }

  function PutKey(slots: Slots, slot: Slot, key: KeyObject, rc: VltRc): Slots {
    if Good(rc) then slots[slot := key] else slots
  }

  predicate SlotHolds(slots: Slots, key: seq<byte>) {
    TMP_AES in slots && slots[TMP_AES] == AesKey(key)
  }

  /** Make `key` the cached key, uploading it on a miss. The cache is filled before the upload. */
  function RefreshKey(k: Core, key: seq<byte>, env: Env): (Core, Rc) {
    if k.ctx.aesKey == Some(key) then (k, Success) else
    var freed := k.(heap := k.heap.(frees := k.heap.frees + Count(k.ctx.aesKey)));
    if !env.alloc then (freed.(ctx := k.ctx.(aesKey := None)), Unavailable)
    else
      (Core(k.ctx.(aesKey := Some(key), vltRc := env.putRc),
            k.dev.(slots := PutKey(DeleteKey(k.dev.slots, TMP_AES, env.deleteRc), TMP_AES, AesKey(key), env.putRc)),
            freed.heap.(allocs := k.heap.allocs + 1)),
       TranslateError(env.putRc))
  }

  /** What the device writes for a block cipher call under the key its slot holds. */
  function DeviceCrypt(suite: Suite, slots: Slots, encrypt: bool, iv: Block, input: seq<byte>, junk: seq<byte>): (r: seq<byte>)
    ensures |r| == |input|
  {
    if TMP_AES in slots && slots[TMP_AES].AesKey? && Whole(input)
    then Crypt(suite, encrypt, slots[TMP_AES].bytes, iv, input)
    else Fit(junk, |input|)
  }

  datatype CipherOutcome = CipherOutcome(core: Core, aes: AesObject, reply: Reply)

  /** Offset of the block that becomes the next register: in `out` if encrypting, else in `in`. */
  function LastBlock(q: CipherRequest): nat
    requires q.Blocks() > 0
  {
    (if q.encrypt then q.outOff else q.inOff) + (q.Blocks() - 1) * 16
  }

  /** The device calls of a cipher request once its key is the cached one. */
  function RunCipher(suite: Suite, k: Core, a: AesObject, q: CipherRequest, env: Env): CipherOutcome
    requires q.InBounds() && q.Blocks() > 0
  {
    if !Good(env.algoRc) then
      CipherOutcome(k.(ctx := k.ctx.(vltRc := env.algoRc)), a, Reply(HardwareError, q.mem, None))
    else
      var k' := k.(ctx := k.ctx.(vltRc := env.opRc));
      if !Good(env.opRc) then
        CipherOutcome(k', a, Reply(HardwareError, Splice(q.mem, q.outOff, Fit(env.junk, q.sz)), None))
      else
        var out := Splice(q.mem, q.outOff, DeviceCrypt(suite, k.dev.slots, q.encrypt, a.reg, q.Input(), env.junk));
        CipherOutcome(k', a.(reg := out[LastBlock(q)..LastBlock(q) + 16]), Reply(Success, out, None))
  }

  function CipherStep(suite: Suite, k: Core, a: AesObject, q: CipherRequest, env: Env): CipherOutcome
    requires q.InBounds()
  {
    if |a.key| != 16 then CipherOutcome(k, a, Reply(Unavailable, q.mem, None))
    else if q.Blocks() == 0 then CipherOutcome(k, a, Reply(Success, q.mem, None))
    else
      var (k1, rc) := RefreshKey(k, a.key, env);
      if rc != Success then CipherOutcome(k1, a, Reply(rc, q.mem, None))
      else RunCipher(suite, k1, a, q, env)
  }

  // ----- RSA public operation

  /** The export is given four bytes for the exponent, and fails if they do not suffice. */
  function ExportRc(key: RsaKey, env: Env): Rc {
    if env.exportRc == Success && |key.e| > 4 then BufferError else env.exportRc
  }

  /** The exponent, zero-extended on the left to four bytes. */
  function PadExponent(e: seq<byte>): seq<byte>
    requires |e| <= 4
  {
    seq(4 - |e|, _ => 0) + e
  }

  function RawRsa(suite: Suite, n: seq<byte>, e: seq<byte>, input: seq<byte>, junk: seq<byte>): (r: seq<byte>)
    ensures |r| == |input|
  {
    var r := suite.Rsa(n, e, input);
    if |r| == |input| then r else Fit(junk, |input|)
  }

  /** What the device writes for a raw RSA call under the key its slot holds. */
  function DeviceRsa(suite: Suite, slots: Slots, input: seq<byte>, junk: seq<byte>): (r: seq<byte>)
    ensures |r| == |input|
  {
    if TMP_RSA in slots && slots[TMP_RSA].RsaPublicKey?
    then RawRsa(suite, slots[TMP_RSA].n, slots[TMP_RSA].e, input, junk)
    else Fit(junk, |input|)
  }

  /** Delete and put of the temporary RSA key, on every operation. */
  function UploadRsa(k: Core, n: seq<byte>, e: seq<byte>, env: Env): Core {
    k.(ctx := k.ctx.(vltRc := env.putRc),
       dev := k.dev.(slots := PutKey(DeleteKey(k.dev.slots, TMP_RSA, env.deleteRc), TMP_RSA, RsaPublicKey(n, e), env.putRc)))
  }

  /** The device calls of an RSA request, under whatever key the slot holds. */
  function RunRsa(suite: Suite, k: Core, q: RsaRequest, env: Env): Outcome
    requires q.InBounds()
  {
    if !Good(env.algoRc) then
      Outcome(k.(ctx := k.ctx.(vltRc := env.algoRc)), Reply(HardwareError, q.mem, q.outLen))
    else
      var outLen := if q.outLen.Some? then Some(if Good(env.opRc) then q.inLen else env.produced) else None;
      var written := if Good(env.opRc) then DeviceRsa(suite, k.dev.slots, q.Input(), env.junk)
                     else Fit(env.junk, q.inLen);
      Outcome(k.(ctx := k.ctx.(vltRc := env.opRc)),
              Reply(TranslateError(env.opRc), Splice(q.mem, q.outOff, written), outLen))
  }

  function RsaStep(suite: Suite, k: Core, q: RsaRequest, env: Env): Outcome
    requires q.InBounds()
  {
    if !q.IsPublic() then Outcome(k, Reply(Unavailable, q.mem, q.outLen))
    else if ExportRc(q.key, env) != Success then Outcome(k, Reply(ExportRc(q.key, env), q.mem, q.outLen))
    else
      var k1 := UploadRsa(k, q.key.n, PadExponent(q.key.e), env);
      if !Good(env.putRc) then Outcome(k1, Reply(HardwareError, q.mem, q.outLen))
      else RunRsa(suite, k1, q, env)
  }

  // ----- The dispatcher

  /** Register sets up the static context if the callback has none; unregister gives a context back. */
  function CommandStep(k: Core, hasCtx: bool, command: Command, env: Env): (Core, Rc) {
    match command
    case Register => if hasCtx then (k, Unavailable) else InitStep(k, env)
    case Unregister => if hasCtx then (CleanupStep(k, env), Success) else (k, Unavailable)
    case OtherCommand => (k, Unavailable)
  }

  /** `ccbVaultIc_CryptoCb`; `hasCtx` says whether the callback was given a context pointer. */
  function CallbackStep(suite: Suite, s: State, hasCtx: bool, info: Option<Request>, env: Env): (State, Reply) {
    if info.None? then (s, Reply(BadFuncArg, [], None)) else
    var i := info.value;
    var kept := Reply(BadFuncArg, i.Before(), i.LenBefore());
    if !i.Cmd? && (!hasCtx || s.core.ctx.initialized == 0) then (s, kept) else
    match i
    case Cmd(command) =>
      var (k, rc) := CommandStep(s.core, hasCtx, command, env);
      (s.(core := k), kept.(rc := rc))
    case Hash(q) =>
      var o := HashStep(suite, s.core, q, env);
      (s.(core := o.core), o.reply)
    case AesCbc(q) =>
      if q.aes !in s.objects then (s, kept) else
      var o := CipherStep(suite, s.core, s.objects[q.aes], q, env);
      (State(o.core, s.objects[q.aes := o.aes]), o.reply)
    case RsaPk(q) =>
      var o := RsaStep(suite, s.core, q, env);
      (s.(core := o.core), o.reply)
    case Unsupported => (s, kept.(rc := Unavailable))
  }

  // ----- Events and runs

  /**
   * `SetKey` is wolfCrypt keying an `Aes` object; `InitHash` and `CopyHash` are wolfCrypt starting a
   * `wc_Sha256` object afresh and copying one into another, of which the port is not told. A `Callback` is one request offered to the port;
   * `software` says that wolfCrypt serves the request itself if the port answers `Unavailable`.
   */
  datatype Event =
    | Init(env: Env)
    | Cleanup(env: Env)
    | SetKey(aes: nat, key: seq<byte>, iv: Block)
    | InitHash(hash: nat)
    | CopyHash(from: nat, to: nat)
    | Callback(hasCtx: bool, info: Option<Request>, software: bool, env: Env)
  {
    predicate IsCbc() { Callback? && info.Some? && info.value.AesCbc? }
    predicate IsHash() { Callback? && info.Some? && info.value.Hash? && info.value.hash.hashType == Sha256 }
  }

  /** wolfCrypt's own CBC over the whole blocks of a request. */
  function SoftwareCbc(suite: Suite, s: State, q: CipherRequest): (State, Reply)
    requires q.InBounds() && q.aes in s.objects
  {
    var a := s.objects[q.aes];
    var input := q.mem[q.inOff..q.inOff + q.Blocks() * 16];
    var output := Crypt(suite, q.encrypt, a.key, a.reg, input);
    (s.(objects := s.objects[q.aes := a.(reg := Tail(a.reg, if q.encrypt then output else input))]),
     Reply(Success, Splice(q.mem, q.outOff, output), None))
  }

  function Step(suite: Suite, s: State, e: Event): (State, Reply) {
    match e
    case Init(env) => var (k, rc) := InitStep(s.core, env); (s.(core := k), Reply(rc, [], None))
    case Cleanup(env) => (s.(core := CleanupStep(s.core, env)), Reply(Success, [], None))
    case SetKey(id, key, iv) => (s.(objects := s.objects[id := AesObject(key, iv)]), Reply(Success, [], None))
    case InitHash(_) => (s, Reply(Success, [], None))
    case CopyHash(_, _) => (s, Reply(Success, [], None))
    case Callback(hasCtx, info, software, env) =>
      var (t, r) := CallbackStep(suite, s, hasCtx, info, env);
      if software && r.rc == Unavailable && e.IsCbc() && info.value.cipher.aes in t.objects
      then SoftwareCbc(suite, t, info.value.cipher)
      else (t, r)
  }

  function Before(es: seq<Event>): seq<Event>
    requires es != []
  {
    es[..|es| - 1]
  }

  function Last(es: seq<Event>): Event
    requires es != []
  {
    es[|es| - 1]
  }

  /** The state after a run that starts from a statically initialized context and a closed device. */
  function After(suite: Suite, es: seq<Event>): State {
    if es == [] then START else Step(suite, After(suite, Before(es)), Last(es)).0
  }

  /** The reply to the last event of a run. */
  function LastReply(suite: Suite, es: seq<Event>): Reply
    requires es != []
  {
    Step(suite, After(suite, Before(es)), Last(es)).1
  }

  lemma AfterAppend(suite: Suite, es: seq<Event>, e: Event)
    ensures After(suite, es + [e]) == Step(suite, After(suite, es), e).0
    ensures LastReply(suite, es + [e]) == Step(suite, After(suite, es), e).1
  {
    assert Before(es + [e]) == es && Last(es + [e]) == e;
  }
}
