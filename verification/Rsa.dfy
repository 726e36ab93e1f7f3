/** The RSA public operation: the key used is the key passed, and padding keeps the exponent. */
module Rsa {
  import opened Bytes
  import opened Machine
  import opened Resources

  /** Big-endian value of a byte string. */
  function BigEndian(s: seq<byte>): nat {
    if s == [] then 0 else BigEndian(s[..|s| - 1]) * 256 + s[|s| - 1] as nat
  }

  /** Zeros in front, any number of them, change no value. */
  lemma {:induction false} LeadingZerosKeepValue(width: nat, s: seq<byte>)
    ensures BigEndian(seq(width, _ => 0) + s) == BigEndian(s)
  {
    var zeros: seq<byte> := seq(width, _ => 0);
    var all := zeros + s;
    if s == [] && width == 0 {
    } else if s == [] {
      var fewer: seq<byte> := seq(width - 1, _ => 0);
      assert all[..|all| - 1] == fewer + s && all[|all| - 1] == 0;
      LeadingZerosKeepValue(width - 1, s);
    } else {
      assert all[..|all| - 1] == zeros + s[..|s| - 1];
      LeadingZerosKeepValue(width, s[..|s| - 1]);
    }
  }

  /** Success means the key was exported, put and used: nothing an earlier call left in the slot survives the put. */
  lemma SuccessUsesKey(suite: Suite, k: Core, q: RsaRequest, env: Env)
    requires q.InBounds()
    ensures RsaStep(suite, k, q, env).reply.rc == Success <==>
      q.IsPublic() && ExportRc(q.key, env) == Success && Good(env.putRc) && Good(env.algoRc) && Good(env.opRc)
    ensures RsaStep(suite, k, q, env).reply.rc == Success ==>
      RsaStep(suite, k, q, env).reply ==
        Reply(Success, Splice(q.mem, q.outOff, RawRsa(suite, q.key.n, PadExponent(q.key.e), q.Input(), env.junk)),
              if q.outLen.Some? then Some(q.inLen) else None)
  {}

  /**
   * After any run at all, whatever that run left in the slots, a successful public operation
   * computes with the modulus of the key passed now and an exponent of four bytes with the value
   * of that key's exponent, and touches neither the AES slot, the AES cache nor the message.
   */
  lemma RsaUsesThisKey(suite: Suite, es: seq<Event>, e: Event)
    requires e.Callback? && e.info.Some? && e.info.value.RsaPk?
    requires LastReply(suite, es + [e]).rc == Success
    ensures |e.info.value.rsa.key.e| <= 4
    ensures var q, before, after := e.info.value.rsa, After(suite, es).core, After(suite, es + [e]).core;
      var padded := PadExponent(q.key.e);
      && |padded| == 4 && BigEndian(padded) == BigEndian(q.key.e)
      && (|suite.Rsa(q.key.n, padded, q.Input())| == q.inLen ==>
            LastReply(suite, es + [e]) ==
              Reply(Success, Splice(q.mem, q.outOff, suite.Rsa(q.key.n, padded, q.Input())),
                    if q.outLen.Some? then Some(q.inLen) else None))
      && after.dev.slots - {TMP_RSA} == before.dev.slots - {TMP_RSA}
      && after.ctx.aesKey == before.ctx.aesKey && after.ctx.m == before.ctx.m
      && after.heap == before.heap
  {
    hide HashStep, CipherStep, RsaStep;
    var q, k := e.info.value.rsa, After(suite, es).core;
    AfterAppend(suite, es, e);
    SuccessUsesKey(suite, k, q, e.env);
    RsaFrame(suite, k, q, e.env);
    LeadingZerosKeepValue(4 - |q.key.e|, q.key.e);
  }
}
