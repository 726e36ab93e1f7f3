/** Cipher block chaining, as in section 6.2 of NIST SP 800-38A, and sessions of chained calls. */
module Cbc {
  import opened Bytes

  predicate Whole(data: seq<byte>) {
    |data| % BLOCK_SIZE == 0
  }

  function CbcEncrypt(suite: Suite, key: seq<byte>, iv: Block, p: seq<byte>): (c: seq<byte>)
    requires Whole(p)
    ensures |c| == |p|
    decreases |p|
  {
    if p == [] then [] else
      var c0 := suite.E(key, Xor(p[..16], iv));
      c0 + CbcEncrypt(suite, key, c0, p[16..])
  }

  function CbcDecrypt(suite: Suite, key: seq<byte>, iv: Block, c: seq<byte>): (p: seq<byte>)
    requires Whole(c)
    ensures |p| == |c|
    decreases |c|
  {
    if c == [] then [] else
      Xor(suite.D(key, c[..16]), iv) + CbcDecrypt(suite, key, c[..16], c[16..])
  }

  function Crypt(suite: Suite, encrypt: bool, key: seq<byte>, iv: Block, data: seq<byte>): (r: seq<byte>)
    requires Whole(data)
    ensures |r| == |data|
  {
    if encrypt then CbcEncrypt(suite, key, iv, data) else CbcDecrypt(suite, key, iv, data)
  }

  /** The register after ciphertext `c` has gone by: its last block, or `iv` if there was none. */
  function Tail(iv: Block, c: seq<byte>): Block {
    if |c| < 16 then iv else c[|c| - 16..]
  }

  lemma TailAppend(iv: Block, c: seq<byte>, d: seq<byte>)
    requires Whole(c) && Whole(d)
    ensures Tail(Tail(iv, c), d) == Tail(iv, c + d)
  {
    if d == [] { assert c + d == c; }
  }

  // ----- The block-indexed formulation of the standard

  function BlockAt(x: seq<byte>, j: nat): Block
    requires 16 * j + 16 <= |x|
  {
    x[16 * j..16 * j + 16]
  }

  function Previous(iv: Block, c: seq<byte>, j: nat): Block
    requires 16 * j <= |c|
  {
    if j == 0 then iv else BlockAt(c, j - 1)
  }

  /** C_j = E_K(P_j xor C_(j-1)) with C_0 = IV, for every block j. */
  ghost predicate IsCiphertext(suite: Suite, key: seq<byte>, iv: Block, p: seq<byte>, c: seq<byte>) {
    |c| == |p| &&
    forall j: nat {:trigger BlockAt(c, j)} :: 16 * j + 16 <= |p| ==>
      BlockAt(c, j) == suite.E(key, Xor(BlockAt(p, j), Previous(iv, c, j)))
  }

  /** P_j = D_K(C_j) xor C_(j-1) with C_0 = IV, for every block j. */
  ghost predicate IsPlaintext(suite: Suite, key: seq<byte>, iv: Block, c: seq<byte>, p: seq<byte>) {
    |p| == |c| &&
    forall j: nat {:trigger BlockAt(p, j)} :: 16 * j + 16 <= |c| ==>
      BlockAt(p, j) == Xor(suite.D(key, BlockAt(c, j)), Previous(iv, c, j))
  }

  lemma BlockOfRest(x: seq<byte>, j: nat)
    requires |x| >= 16 && 16 * j + 16 <= |x| - 16
    ensures BlockAt(x[16..], j) == BlockAt(x, j + 1)
  {}

  lemma PreviousOfRest(iv: Block, c: seq<byte>, j: nat)
    requires |c| >= 16 && 16 * j + 16 <= |c| - 16
    ensures Previous(c[..16], c[16..], j) == Previous(iv, c, j + 1)
  {
    if j > 0 { BlockOfRest(c, j - 1); }
  }

  /** Peeling the first block off the standard's equations. */
  lemma CiphertextStep(suite: Suite, key: seq<byte>, iv: Block, p: seq<byte>, c: seq<byte>)
    requires |c| == |p| >= 16
    ensures IsCiphertext(suite, key, iv, p, c) <==>
            c[..16] == suite.E(key, Xor(p[..16], iv)) && IsCiphertext(suite, key, c[..16], p[16..], c[16..])
  {
    assert BlockAt(c, 0) == c[..16] && BlockAt(p, 0) == p[..16];
    forall j: nat | 16 * j + 16 <= |p| - 16
      ensures BlockAt(c[16..], j) == BlockAt(c, j + 1) && BlockAt(p[16..], j) == BlockAt(p, j + 1)
      ensures Previous(c[..16], c[16..], j) == Previous(iv, c, j + 1)
    {
      BlockOfRest(c, j); BlockOfRest(p, j); PreviousOfRest(iv, c, j);
    }
    if c[..16] == suite.E(key, Xor(p[..16], iv)) && IsCiphertext(suite, key, c[..16], p[16..], c[16..]) {
      forall j: nat | 16 * j + 16 <= |p|
        ensures BlockAt(c, j) == suite.E(key, Xor(BlockAt(p, j), Previous(iv, c, j)))
      {
        if j > 0 { var i := j - 1; assert BlockAt(c[16..], i) == BlockAt(c, i + 1); }
      }
    }
  }

  lemma PlaintextStep(suite: Suite, key: seq<byte>, iv: Block, c: seq<byte>, p: seq<byte>)
    requires |c| == |p| >= 16
    ensures IsPlaintext(suite, key, iv, c, p) <==>
            p[..16] == Xor(suite.D(key, c[..16]), iv) && IsPlaintext(suite, key, c[..16], c[16..], p[16..])
  {
    assert BlockAt(c, 0) == c[..16] && BlockAt(p, 0) == p[..16];
    forall j: nat | 16 * j + 16 <= |p| - 16
      ensures BlockAt(c[16..], j) == BlockAt(c, j + 1) && BlockAt(p[16..], j) == BlockAt(p, j + 1)
      ensures Previous(c[..16], c[16..], j) == Previous(iv, c, j + 1)
    {
      BlockOfRest(c, j); BlockOfRest(p, j); PreviousOfRest(iv, c, j);
    }
    if p[..16] == Xor(suite.D(key, c[..16]), iv) && IsPlaintext(suite, key, c[..16], c[16..], p[16..]) {
      forall j: nat | 16 * j + 16 <= |c|
        ensures BlockAt(p, j) == Xor(suite.D(key, BlockAt(c, j)), Previous(iv, c, j))
      {
        if j > 0 { var i := j - 1; assert BlockAt(p[16..], i) == BlockAt(p, i + 1); }
      }
    }
  }

  lemma EncryptFirst(suite: Suite, key: seq<byte>, iv: Block, p: seq<byte>, c: seq<byte>)
    requires Whole(p) && |c| == |p| >= 16
    ensures c == CbcEncrypt(suite, key, iv, p) <==>
            c[..16] == suite.E(key, Xor(p[..16], iv)) && c[16..] == CbcEncrypt(suite, key, c[..16], p[16..])
  {
    var c0 := suite.E(key, Xor(p[..16], iv));
    var first: seq<byte>, rest: seq<byte> := c0, CbcEncrypt(suite, key, c0, p[16..]);
    assert (first + rest)[..16] == first && (first + rest)[16..] == rest;
    assert c == c[..16] + c[16..];
  }

  lemma {:induction false} EncryptIsStandard(suite: Suite, key: seq<byte>, iv: Block, p: seq<byte>, c: seq<byte>)
    requires Whole(p)
    ensures c == CbcEncrypt(suite, key, iv, p) <==> IsCiphertext(suite, key, iv, p, c)
    decreases |p|
  {
    if |c| == |p| && p != [] {
      calc {
        c == CbcEncrypt(suite, key, iv, p);
      <==> { EncryptFirst(suite, key, iv, p, c); }
        c[..16] == suite.E(key, Xor(p[..16], iv)) && c[16..] == CbcEncrypt(suite, key, c[..16], p[16..]);
      <==> { EncryptIsStandard(suite, key, c[..16], p[16..], c[16..]); }
        c[..16] == suite.E(key, Xor(p[..16], iv)) && IsCiphertext(suite, key, c[..16], p[16..], c[16..]);
      <==> { CiphertextStep(suite, key, iv, p, c); }
        IsCiphertext(suite, key, iv, p, c);
      }
    }
  }

  lemma DecryptFirst(suite: Suite, key: seq<byte>, iv: Block, c: seq<byte>, p: seq<byte>)
    requires Whole(c) && |c| == |p| >= 16
    ensures p == CbcDecrypt(suite, key, iv, c) <==>
            p[..16] == Xor(suite.D(key, c[..16]), iv) && p[16..] == CbcDecrypt(suite, key, c[..16], c[16..])
  {
    var first: seq<byte> := Xor(suite.D(key, c[..16]), iv);
    var rest: seq<byte> := CbcDecrypt(suite, key, c[..16], c[16..]);
    assert (first + rest)[..16] == first && (first + rest)[16..] == rest;
    assert p == p[..16] + p[16..];
  }

  lemma {:induction false} DecryptIsStandard(suite: Suite, key: seq<byte>, iv: Block, c: seq<byte>, p: seq<byte>)
    requires Whole(c)
    ensures p == CbcDecrypt(suite, key, iv, c) <==> IsPlaintext(suite, key, iv, c, p)
    decreases |c|
  {
    if |c| == |p| && c != [] {
      calc {
        p == CbcDecrypt(suite, key, iv, c);
      <==> { DecryptFirst(suite, key, iv, c, p); }
        p[..16] == Xor(suite.D(key, c[..16]), iv) && p[16..] == CbcDecrypt(suite, key, c[..16], c[16..]);
      <==> { DecryptIsStandard(suite, key, c[..16], c[16..], p[16..]); }
        p[..16] == Xor(suite.D(key, c[..16]), iv) && IsPlaintext(suite, key, c[..16], c[16..], p[16..]);
      <==> { PlaintextStep(suite, key, iv, c, p); }
        IsPlaintext(suite, key, iv, c, p);
      }
    }
  }

  // ----- Chaining and inversion

  lemma TailOfCons(iv: Block, c0: Block, rest: seq<byte>, all: seq<byte>)
    requires Whole(rest) && all == c0 + rest
    ensures Tail(iv, all) == Tail(c0, rest)
  {}

  lemma EncryptUnfold(suite: Suite, key: seq<byte>, iv: Block, b: Block, ps: seq<byte>, all: seq<byte>)
    requires Whole(ps) && all == b + ps
    ensures var c0 := suite.E(key, Xor(b, iv));
      CbcEncrypt(suite, key, iv, all) == c0 + CbcEncrypt(suite, key, c0, ps)
  {
    assert all[..16] == b && all[16..] == ps;
  }

  /** Encrypting `p` and then `q` from where `p` left the register is encrypting `p + q`. */
  lemma {:induction false} EncryptAppend(suite: Suite, key: seq<byte>, iv: Block,
                                         p: seq<byte>, c: seq<byte>, q: seq<byte>, d: seq<byte>)
    requires Whole(p) && Whole(q)
    requires c == CbcEncrypt(suite, key, iv, p) && d == CbcEncrypt(suite, key, Tail(iv, c), q)
    ensures CbcEncrypt(suite, key, iv, p + q) == c + d
    decreases |p|
  {
    if p == [] {
      assert p + q == q && c + d == d;
    } else {
      var b: Block, ps := p[..16], p[16..];
      var c0 := suite.E(key, Xor(b, iv));
      var first: seq<byte>, rest := c0, CbcEncrypt(suite, key, c0, ps);
      hide CbcEncrypt, Tail;
      assert p == b + ps && p + q == b + (ps + q);
      EncryptUnfold(suite, key, iv, b, ps, p);
      EncryptUnfold(suite, key, iv, b, ps + q, p + q);
      TailOfCons(iv, c0, rest, c);
      EncryptAppend(suite, key, c0, ps, rest, q, d);
      assert first + (rest + d) == (first + rest) + d;
    }
  }

  lemma DecryptUnfold(suite: Suite, key: seq<byte>, iv: Block, c0: Block, cs: seq<byte>, all: seq<byte>)
    requires Whole(cs) && all == c0 + cs
    ensures CbcDecrypt(suite, key, iv, all) == Xor(suite.D(key, c0), iv) + CbcDecrypt(suite, key, c0, cs)
  {
    assert all[..16] == c0 && all[16..] == cs;
  }

  lemma {:induction false} DecryptAppend(suite: Suite, key: seq<byte>, iv: Block,
                                         c: seq<byte>, p: seq<byte>, d: seq<byte>, q: seq<byte>)
    requires Whole(c) && Whole(d)
    requires p == CbcDecrypt(suite, key, iv, c) && q == CbcDecrypt(suite, key, Tail(iv, c), d)
    ensures CbcDecrypt(suite, key, iv, c + d) == p + q
    decreases |c|
  {
    if c == [] {
      assert c + d == d && p + q == q;
    } else {
      var c0: Block, cs := c[..16], c[16..];
      var first: seq<byte>, rest := Xor(suite.D(key, c0), iv), CbcDecrypt(suite, key, c0, cs);
      hide CbcDecrypt, Tail;
      assert c == c0 + cs && c + d == c0 + (cs + d);
      TailOfCons(iv, c0, cs, c);
      DecryptAppend(suite, key, c0, cs, rest, d, q);
      DecryptUnfold(suite, key, iv, c0, cs, c);
      DecryptUnfold(suite, key, iv, c0, cs + d, c + d);
      assert first + (rest + q) == (first + rest) + q;
    }
  }

  lemma {:induction false} RoundTrip(suite: Suite, key: seq<byte>, iv: Block, p: seq<byte>)
    requires Invertible(suite) && Whole(p)
    ensures CbcDecrypt(suite, key, iv, CbcEncrypt(suite, key, iv, p)) == p
    decreases |p|
  {
    if p == [] {
    } else {
      var c0 := suite.E(key, Xor(p[..16], iv));
      var c := CbcEncrypt(suite, key, iv, p);
      assert c[..16] == c0 && c[16..] == CbcEncrypt(suite, key, c0, p[16..]);
      XorCancel(p[..16], iv);
      RoundTrip(suite, key, c0, p[16..]);
      assert p == p[..16] + p[16..];
    }
  }

  // ----- Sessions: the completed calls on one key and one register

  /** One completed call: direction, bytes read, bytes written. */
  datatype Done = Done(encrypt: bool, input: seq<byte>, output: seq<byte>) {
    /** The side that carries ciphertext, hence the next IV. */
    function Cipher(): seq<byte> { if encrypt then output else input }
  }

  /** The register after a session: the last ciphertext block that went by in either direction. */
  function RegAfter(iv: Block, log: seq<Done>): Block {
    if log == [] then iv else Tail(RegAfter(iv, log[..|log| - 1]), log[|log| - 1].Cipher())
  }

  /** Every call computed CBC under `key`, starting from where the previous call left the register. */
  ghost predicate IsSession(suite: Suite, key: seq<byte>, iv: Block, log: seq<Done>) {
    log == [] ||
    var before, d := log[..|log| - 1], log[|log| - 1];
    IsSession(suite, key, iv, before) && Whole(d.input) &&
    d.output == Crypt(suite, d.encrypt, key, RegAfter(iv, before), d.input)
  }

  lemma SessionExtends(suite: Suite, key: seq<byte>, iv: Block, log: seq<Done>, d: Done)
    requires IsSession(suite, key, iv, log) && Whole(d.input)
    requires d.output == Crypt(suite, d.encrypt, key, RegAfter(iv, log), d.input)
    ensures IsSession(suite, key, iv, log + [d])
    ensures RegAfter(iv, log + [d]) == Tail(RegAfter(iv, log), d.Cipher())
  {
    var log' := log + [d];
    assert log'[..|log'| - 1] == log;
  }

  function Inputs(log: seq<Done>): seq<byte> {
    if log == [] then [] else Inputs(log[..|log| - 1]) + log[|log| - 1].input
  }

  function Outputs(log: seq<Done>): seq<byte> {
    if log == [] then [] else Outputs(log[..|log| - 1]) + log[|log| - 1].output
  }

  ghost predicate AllInDirection(log: seq<Done>, encrypt: bool) {
    forall i :: 0 <= i < |log| ==> log[i].encrypt == encrypt
  }

  lemma EncryptStep(suite: Suite, key: seq<byte>, iv: Block, p: seq<byte>, c: seq<byte>, d: Done)
    requires Whole(p) && Whole(d.input)
    requires c == CbcEncrypt(suite, key, iv, p) && d.output == CbcEncrypt(suite, key, Tail(iv, c), d.input)
    ensures Whole(p + d.input) && c + d.output == CbcEncrypt(suite, key, iv, p + d.input)
    ensures Tail(Tail(iv, c), d.output) == Tail(iv, c + d.output)
  {
    EncryptAppend(suite, key, iv, p, c, d.input, d.output);
    TailAppend(iv, c, d.output);
  }

  lemma {:induction false} EncryptSession(suite: Suite, key: seq<byte>, iv: Block, log: seq<Done>)
    requires IsSession(suite, key, iv, log) && AllInDirection(log, true)
    ensures Whole(Inputs(log)) && Outputs(log) == CbcEncrypt(suite, key, iv, Inputs(log))
    ensures RegAfter(iv, log) == Tail(iv, Outputs(log))
  {
    if log == [] {
    } else {
      var before, d := log[..|log| - 1], log[|log| - 1];
      EncryptSession(suite, key, iv, before);
      assert d.output == CbcEncrypt(suite, key, Tail(iv, Outputs(before)), d.input);
      EncryptStep(suite, key, iv, Inputs(before), Outputs(before), d);
    }
  }

  lemma DecryptStep(suite: Suite, key: seq<byte>, iv: Block, c: seq<byte>, p: seq<byte>, d: Done)
    requires Whole(c) && Whole(d.input)
    requires p == CbcDecrypt(suite, key, iv, c) && d.output == CbcDecrypt(suite, key, Tail(iv, c), d.input)
    ensures Whole(c + d.input) && p + d.output == CbcDecrypt(suite, key, iv, c + d.input)
    ensures Tail(Tail(iv, c), d.input) == Tail(iv, c + d.input)
  {
    DecryptAppend(suite, key, iv, c, p, d.input, d.output);
    TailAppend(iv, c, d.input);
  }

  lemma {:induction false} DecryptSession(suite: Suite, key: seq<byte>, iv: Block, log: seq<Done>)
    requires IsSession(suite, key, iv, log) && AllInDirection(log, false)
    ensures Whole(Inputs(log)) && Outputs(log) == CbcDecrypt(suite, key, iv, Inputs(log))
    ensures RegAfter(iv, log) == Tail(iv, Inputs(log))
  {
    if log == [] {
    } else {
      var before, d := log[..|log| - 1], log[|log| - 1];
      DecryptSession(suite, key, iv, before);
      assert d.output == CbcDecrypt(suite, key, Tail(iv, Inputs(before)), d.input);
      DecryptStep(suite, key, iv, Inputs(before), Outputs(before), d);
    }
  }

  /** However a message is cut into calls, a one-direction session computes one-shot CBC. */
  lemma {:induction false} SessionIsOneShot(suite: Suite, encrypt: bool, key: seq<byte>, iv: Block, log: seq<Done>)
    requires IsSession(suite, key, iv, log) && AllInDirection(log, encrypt)
    ensures Whole(Inputs(log)) && Outputs(log) == Crypt(suite, encrypt, key, iv, Inputs(log))
    ensures RegAfter(iv, log) == Tail(iv, if encrypt then Outputs(log) else Inputs(log))
  {
    if encrypt { EncryptSession(suite, key, iv, log); } else { DecryptSession(suite, key, iv, log); }
  }

  /** Two cuts of the same bytes give the same bytes and the same final register. */
  lemma {:induction false} ChunkingIsInvisible(suite: Suite, encrypt: bool, key: seq<byte>, iv: Block, log: seq<Done>, log': seq<Done>)
    requires IsSession(suite, key, iv, log) && AllInDirection(log, encrypt)
    requires IsSession(suite, key, iv, log') && AllInDirection(log', encrypt)
    requires Inputs(log) == Inputs(log')
    ensures Outputs(log) == Outputs(log') && RegAfter(iv, log) == RegAfter(iv, log')
  {
    SessionIsOneShot(suite, encrypt, key, iv, log);
    SessionIsOneShot(suite, encrypt, key, iv, log');
  }

  /** Encrypting with one cut and decrypting with any other recovers the message. */
  lemma {:induction false} SessionsRoundTrip(suite: Suite, key: seq<byte>, iv: Block, enc: seq<Done>, dec: seq<Done>)
    requires Invertible(suite)
    requires IsSession(suite, key, iv, enc) && AllInDirection(enc, true)
    requires IsSession(suite, key, iv, dec) && AllInDirection(dec, false)
    requires Inputs(dec) == Outputs(enc)
    ensures Outputs(dec) == Inputs(enc) && RegAfter(iv, dec) == RegAfter(iv, enc)
  {
    SessionIsOneShot(suite, true, key, iv, enc);
    SessionIsOneShot(suite, false, key, iv, dec);
    RoundTrip(suite, key, iv, Inputs(enc));
  }
}
