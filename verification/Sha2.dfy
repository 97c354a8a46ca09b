/**
 * The streaming SHA-256 implementation: a 64-byte partial buffer, a 16-word circular
 * message schedule and two variants of the round loop.
 */
module Sha2 {
  import opened Bytes
  import opened Sha256Spec

  // ----- The compression function over a circular schedule

  /**
   * The circular schedule while round `j` is next: slot `t % 16` holds word `t` for the
   * last sixteen words computed.
   */
  ghost predicate HoldsSchedule(w256: seq<word>, block: bytes, j: nat)
    requires |w256| == 16 && |block| == 64 && j <= 64
  {
    forall t :: 0 <= t < j && j <= t + 16 ==> w256[t % 16] == Schedule(block, t)
  }

  lemma ExpandReordered(w2: word, w7: word, w15: word, w16: word)
    ensures Add(w16, Add(Add(SmallSigma1(w2), w7), SmallSigma0(w15))) == Expand(w2, w7, w15, w16)
  {
    hide SmallSigma0, SmallSigma1;
  }

  lemma NextWordIsSchedule(w256: seq<word>, block: bytes, j: nat)
    requires |w256| == 16 && |block| == 64 && 16 <= j < 64
    requires HoldsSchedule(w256, block, j)
    ensures Expand(w256[(j + 14) % 16], w256[(j + 9) % 16], w256[(j + 1) % 16], w256[j % 16]) == Schedule(block, j)
  {
    hide Expand;
    Slots(j);
  }

  lemma Slots(j: nat)
    requires 16 <= j
    ensures (j + 1) % 16 == (j - 15) % 16
    ensures (j + 14) % 16 == (j - 2) % 16
    ensures (j + 9) % 16 == (j - 7) % 16
    ensures j % 16 == (j - 16) % 16
  {
  }

  lemma ScheduleAdvances(w256: seq<word>, block: bytes, j: nat)
    requires |w256| == 16 && |block| == 64 && j < 64
    requires HoldsSchedule(w256, block, j)
    ensures HoldsSchedule(w256[j % 16 := Schedule(block, j)], block, j + 1)
  {
    hide Schedule;
    var next := w256[j % 16 := Schedule(block, j)];
    forall t | 0 <= t < j + 1 && j + 1 <= t + 16
      ensures next[t % 16] == Schedule(block, t)
    {
      if t < j {
        assert t % 16 != j % 16;
      }
    }
  }

  /** One more round, on the working variables so far and the schedule word stored for it. */
  lemma RoundsNext(r0: Registers, block: bytes, j: nat, a: word, b: word, c: word, d: word,
                   e: word, f: word, g: word, h: word)
    requires |block| == 64 && j < 64
    requires Registers(a, b, c, d, e, f, g, h) == Rounds(r0, block, j)
    ensures var t1 := T1(e, f, g, h, K(j), Schedule(block, j));
            Registers(Add(t1, T2(a, b, c)), a, b, c, Add(d, t1), e, f, g) == Rounds(r0, block, j + 1)
  {
    hide T1, T2, Add, K;
  }

  lemma RoundsStart(r0: Registers, block: bytes)
    requires |block| == 64
    ensures Rounds(r0, block, 0) == r0
  {
  }

  lemma CompressIs(h: seq<word>, block: bytes)
    requires |h| == 8 && |block| == 64
    ensures Compress(h, block) == AddRegisters(h, Rounds(Load(h), block, 64))
  {
    hide Rounds, AddRegisters;
  }

  lemma FirstWords(block: bytes, j: nat)
    requires |block| == 64 && j < 16
    ensures Schedule(block, j) == LoadWord(block, 4 * j)
  {
  }

  /**
   * The rolled variant: each round moves every working variable one place down.
   */
  method TransformRolled(state: array<word>, data: bytes)
    requires state.Length == 8 && |data| == 64
    modifies state
    ensures state[..] == Compress(old(state[..]), data)
  {
    hide T1, T2, Add, K, Schedule, Rounds, Expand, LoadWord, AddRegisters, SmallSigma0, SmallSigma1;
    ghost var r0 := Load(state[..]);
    RoundsStart(r0, data);
    var a, b, c, d := state[0], state[1], state[2], state[3];
    var e, f, g, h := state[4], state[5], state[6], state[7];
    var w256 := new word[16];

    var j := 0;
    while j < 16
      invariant 0 <= j <= 16
      invariant HoldsSchedule(w256[..], data, j)
      invariant Registers(a, b, c, d, e, f, g, h) == Rounds(r0, data, j)
      invariant state[..] == old(state[..])
    {
      FirstWords(data, j);
      RoundsNext(r0, data, j, a, b, c, d, e, f, g, h);
      ScheduleAdvances(w256[..], data, j);
      w256[j] := LoadWord(data, 4 * j);
      var t1 := T1(e, f, g, h, K(j), w256[j]);
      var t2 := T2(a, b, c);
      h, g, f, e, d, c, b, a := g, f, e, Add(d, t1), c, b, a, Add(t1, t2);
      j := j + 1;
    }

    while j < 64
      invariant 16 <= j <= 64
      invariant HoldsSchedule(w256[..], data, j)
      invariant Registers(a, b, c, d, e, f, g, h) == Rounds(r0, data, j)
      invariant state[..] == old(state[..])
    {
      RoundsNext(r0, data, j, a, b, c, d, e, f, g, h);
      NextWordIsSchedule(w256[..], data, j);
      ScheduleAdvances(w256[..], data, j);
      var s0 := SmallSigma0(w256[(j + 1) % 16]);
      var s1 := SmallSigma1(w256[(j + 14) % 16]);
      ExpandReordered(w256[(j + 14) % 16], w256[(j + 9) % 16], w256[(j + 1) % 16], w256[j % 16]);
      w256[j % 16] := Add(w256[j % 16], Add(Add(s1, w256[(j + 9) % 16]), s0));
      var t1 := T1(e, f, g, h, K(j), w256[j % 16]);
      var t2 := T2(a, b, c);
      h, g, f, e, d, c, b, a := g, f, e, Add(d, t1), c, b, a, Add(t1, t2);
      j := j + 1;
    }

    AddInto(state, a, b, c, d, e, f, g, h);
    CompressIs(old(state[..]), data);
  }

  /** Add the working variables to the hash value. */
  method AddInto(state: array<word>, a: word, b: word, c: word, d: word, e: word, f: word, g: word, h: word)
    requires state.Length == 8
    modifies state
    ensures state[..] == AddRegisters(old(state[..]), Registers(a, b, c, d, e, f, g, h))
  {
    state[0] := Add(state[0], a);
    state[1] := Add(state[1], b);
    state[2] := Add(state[2], c);
    state[3] := Add(state[3], d);
    state[4] := Add(state[4], e);
    state[5] := Add(state[5], f);
    state[6] := Add(state[6], g);
    state[7] := Add(state[7], h);
  }

  // ----- The unrolled variant: the registers stay put and their roles rotate instead

  /** ROUND256_0_TO_15: one of the first sixteen rounds; only `d` and `h` change. */
  method RoundFirst(w256: array<word>, data: bytes, j: nat, ghost r0: Registers,
                    a: word, b: word, c: word, d: word, e: word, f: word, g: word, h: word)
    returns (d': word, h': word)
    requires w256.Length == 16 && |data| == 64 && j < 16
    requires HoldsSchedule(w256[..], data, j)
    requires Registers(a, b, c, d, e, f, g, h) == Rounds(r0, data, j)
    modifies w256
    ensures HoldsSchedule(w256[..], data, j + 1)
    ensures Registers(h', a, b, c, d', e, f, g) == Rounds(r0, data, j + 1)
  {
    hide T1, T2, Add, K, Schedule, Rounds, LoadWord, BigSigma0, Maj;
    FirstWords(data, j);
    RoundsNext(r0, data, j, a, b, c, d, e, f, g, h);
    ScheduleAdvances(w256[..], data, j);
    w256[j] := LoadWord(data, 4 * j);
    var t1 := T1(e, f, g, h, K(j), w256[j]);
    d' := Add(d, t1);
    h' := Add(t1, T2(a, b, c));
  }

  /** ROUND256: one of the other rounds; only `d` and `h` change. */
  method RoundLater(w256: array<word>, ghost data: bytes, j: nat, ghost r0: Registers,
                    a: word, b: word, c: word, d: word, e: word, f: word, g: word, h: word)
    returns (d': word, h': word)
    requires w256.Length == 16 && |data| == 64 && 16 <= j < 64
    requires HoldsSchedule(w256[..], data, j)
    requires Registers(a, b, c, d, e, f, g, h) == Rounds(r0, data, j)
    modifies w256
    ensures HoldsSchedule(w256[..], data, j + 1)
    ensures Registers(h', a, b, c, d', e, f, g) == Rounds(r0, data, j + 1)
  {
    hide T1, T2, Add, K, Schedule, Rounds, Expand, SmallSigma0, SmallSigma1;
    RoundsNext(r0, data, j, a, b, c, d, e, f, g, h);
    NextWordIsSchedule(w256[..], data, j);
    ScheduleAdvances(w256[..], data, j);
    var s0 := SmallSigma0(w256[(j + 1) % 16]);
    var s1 := SmallSigma1(w256[(j + 14) % 16]);
    ExpandReordered(w256[(j + 14) % 16], w256[(j + 9) % 16], w256[(j + 1) % 16], w256[j % 16]);
    w256[j % 16] := Add(w256[j % 16], Add(Add(s1, w256[(j + 9) % 16]), s0));
    var t1 := T1(e, f, g, h, K(j), w256[j % 16]);
    d' := Add(d, t1);
    h' := Add(t1, T2(a, b, c));
  }

  method TransformUnrolled(state: array<word>, data: bytes)
    requires state.Length == 8 && |data| == 64
    modifies state
    ensures state[..] == Compress(old(state[..]), data)
  {
    hide T1, T2, Add, K, Schedule, Rounds, Expand, LoadWord, AddRegisters;
    hide HoldsSchedule;
    ghost var r0 := Load(state[..]);
    RoundsStart(r0, data);
    var a, b, c, d := state[0], state[1], state[2], state[3];
    var e, f, g, h := state[4], state[5], state[6], state[7];
    var w256 := new word[16];
    ScheduleStart(w256[..], data);

    var j := 0;
    while j < 16
      invariant 0 <= j <= 16 && j % 8 == 0
      invariant HoldsSchedule(w256[..], data, j)
      invariant Registers(a, b, c, d, e, f, g, h) == Rounds(r0, data, j)
      invariant state[..] == old(state[..])
    {
      d, h := RoundFirst(w256, data, j, r0, a, b, c, d, e, f, g, h);
      c, g := RoundFirst(w256, data, j + 1, r0, h, a, b, c, d, e, f, g);
      b, f := RoundFirst(w256, data, j + 2, r0, g, h, a, b, c, d, e, f);
      a, e := RoundFirst(w256, data, j + 3, r0, f, g, h, a, b, c, d, e);
      h, d := RoundFirst(w256, data, j + 4, r0, e, f, g, h, a, b, c, d);
      g, c := RoundFirst(w256, data, j + 5, r0, d, e, f, g, h, a, b, c);
      f, b := RoundFirst(w256, data, j + 6, r0, c, d, e, f, g, h, a, b);
      e, a := RoundFirst(w256, data, j + 7, r0, b, c, d, e, f, g, h, a);
      j := j + 8;
    }

    while j < 64
      invariant 16 <= j <= 64 && j % 8 == 0
      invariant HoldsSchedule(w256[..], data, j)
      invariant Registers(a, b, c, d, e, f, g, h) == Rounds(r0, data, j)
      invariant state[..] == old(state[..])
    {
      d, h := RoundLater(w256, data, j, r0, a, b, c, d, e, f, g, h);
      c, g := RoundLater(w256, data, j + 1, r0, h, a, b, c, d, e, f, g);
      b, f := RoundLater(w256, data, j + 2, r0, g, h, a, b, c, d, e, f);
      a, e := RoundLater(w256, data, j + 3, r0, f, g, h, a, b, c, d, e);
      h, d := RoundLater(w256, data, j + 4, r0, e, f, g, h, a, b, c, d);
      g, c := RoundLater(w256, data, j + 5, r0, d, e, f, g, h, a, b, c);
      f, b := RoundLater(w256, data, j + 6, r0, c, d, e, f, g, h, a, b);
      e, a := RoundLater(w256, data, j + 7, r0, b, c, d, e, f, g, h, a);
      j := j + 8;
    }

    AddInto(state, a, b, c, d, e, f, g, h);
    CompressIs(old(state[..]), data);
  }

  lemma ScheduleStart(w256: seq<word>, block: bytes)
    requires |w256| == 16 && |block| == 64
    ensures HoldsSchedule(w256, block, 0)
  {
  }

  // ----- The streaming context

  lemma ZerosFollow(b: bytes, x: bytes, to: nat)
    requires |x| <= to <= |b| && b[..|x|] == x && b[|x|..to] == Zeros(to - |x|)
    ensures b[..to] == x + Zeros(to - |x|)
    ensures to == |b| ==> b == x + Zeros(to - |x|)
  {
    assert b[..to] == b[..|x|] + b[|x|..to];
    assert b[..|b|] == b;
  }

  /** What a context holds once it has taken in exactly the message `m`. */
  ghost predicate Absorbed(state: seq<word>, bitcount: nat, buffer: bytes, m: bytes) {
    && |state| == 8 && |buffer| == 64
    && bitcount == 8 * |m| % UINT64_RANGE
    && state == CompressBlocks(INITIAL_HASH, m, |m| / 64)
    && buffer[..|m| % 64] == m[|m| - |m| % 64..]
  }

  lemma UsedSpace(n: nat)
    ensures (8 * n % UINT64_RANGE) / 8 % 64 == n % 64
  {
    var q := 8 * n / 0x1_0000_0000_0000_0000;
    var r := n - 0x2000_0000_0000_0000 * q;
    assert 8 * n % 0x1_0000_0000_0000_0000 == 8 * r;
    assert 8 * r / 8 == r;
    assert r == n - 64 * (0x80_0000_0000_0000 * q);
    SameRest(n, 0x80_0000_0000_0000 * q);
  }

  lemma SameRest(n: int, k: int)
    ensures (n - 64 * k) % 64 == n % 64
  {
  }

  lemma BitcountGrows(n: nat, k: nat)
    ensures (8 * n % UINT64_RANGE + 8 * k) % UINT64_RANGE == 8 * (n + k) % UINT64_RANGE
  {
  }

  /** Octets that complete a block move the hash value on by that block. */
  lemma NextBlock(m: bytes, p: bytes)
    requires |m| % 64 + |p| == 64
    ensures |m + p| == 64 * (|m| / 64 + 1)
    ensures CompressBlocks(INITIAL_HASH, m + p, |m| / 64 + 1)
         == Compress(CompressBlocks(INITIAL_HASH, m, |m| / 64), m[|m| - |m| % 64..] + p)
  {
    hide Compress;
    var n := |m| / 64;
    assert (m + p)[64 * n..64 * (n + 1)] == m[|m| - |m| % 64..] + p;
    assert m[..64 * n] == (m + p)[..64 * n];
    CompressBlocksPrefix(INITIAL_HASH, m, m + p, n);
  }

  lemma BlockCompletes(state: seq<word>, bitcount: nat, buffer: bytes, m: bytes, p: bytes, buffer': bytes)
    requires Absorbed(state, bitcount, buffer, m) && |buffer'| == 64
    requires |m| % 64 + |p| == 64
    ensures Absorbed(Compress(state, m[|m| - |m| % 64..] + p), (bitcount + 8 * |p|) % UINT64_RANGE, buffer', m + p)
  {
    hide Compress;
    BitcountGrows(|m|, |p|);
    NextBlock(m, p);
  }

  /** Octets that do not complete a block only extend the buffer. */
  lemma BufferGrows(state: seq<word>, bitcount: nat, buffer: bytes, m: bytes, p: bytes, buffer': bytes)
    requires Absorbed(state, bitcount, buffer, m)
    requires |m| % 64 + |p| < 64 && |buffer'| == 64
    requires buffer'[..|m| % 64 + |p|] == buffer[..|m| % 64] + p
    ensures Absorbed(state, (bitcount + 8 * |p|) % UINT64_RANGE, buffer', m + p)
  {
    hide Compress;
    var n := |m| / 64;
    BitcountGrows(|m|, |p|);
    assert |m + p| / 64 == n && |m + p| % 64 == |m| % 64 + |p|;
    assert m[..64 * n] == (m + p)[..64 * n];
    CompressBlocksPrefix(INITIAL_HASH, m, m + p, n);
  }

  /** Padding that fits in the block being filled. */
  lemma PadInOneBlock(m: bytes)
    requires |m| % 64 <= 55
    ensures |Pad(m)| % 64 == 0
    ensures CompressBlocks(INITIAL_HASH, Pad(m), |Pad(m)| / 64)
         == Compress(CompressBlocks(INITIAL_HASH, m, |m| / 64),
                     m[|m| - |m| % 64..] + [0x80] + Zeros(55 - |m| % 64) + BigEndian(8 * |m| % UINT64_RANGE, 8))
  {
    hide Compress, CompressBlocks, BigEndian;
    assert ZeroPadding(|m|) == 55 - |m| % 64;
    var p := [0x80] + Zeros(55 - |m| % 64) + BigEndian(8 * |m| % UINT64_RANGE, 8);
    assert Pad(m) == m + p;
    NextBlock(m, p);
    assert m[|m| - |m| % 64..] + p
        == m[|m| - |m| % 64..] + [0x80] + Zeros(55 - |m| % 64) + BigEndian(8 * |m| % UINT64_RANGE, 8);
  }

  /** Padding that spills into a further block. */
  lemma PadInTwoBlocks(m: bytes)
    requires 56 <= |m| % 64
    ensures |Pad(m)| % 64 == 0
    ensures CompressBlocks(INITIAL_HASH, Pad(m), |Pad(m)| / 64)
         == Compress(Compress(CompressBlocks(INITIAL_HASH, m, |m| / 64),
                              m[|m| - |m| % 64..] + [0x80] + Zeros(63 - |m| % 64)),
                     Zeros(56) + BigEndian(8 * |m| % UINT64_RANGE, 8))
  {
    hide Compress, CompressBlocks, BigEndian, Pad;
    var p := [0x80] + Zeros(63 - |m| % 64);
    var q := Zeros(56) + BigEndian(8 * |m| % UINT64_RANGE, 8);
    PaddingSpills(m);
    hide Zeros;
    NextBlock(m, p);
    assert m[|m| - |m| % 64..] + p == m[|m| - |m| % 64..] + [0x80] + Zeros(63 - |m| % 64);
    NextBlock(m + p, q);
    assert (m + p)[|m + p| - |m + p| % 64..] + q == q;
  }

  lemma PaddingSpills(m: bytes)
    requires 56 <= |m| % 64
    ensures Pad(m) == m + ([0x80] + Zeros(63 - |m| % 64)) + (Zeros(56) + BigEndian(8 * |m| % UINT64_RANGE, 8))
  {
    hide BigEndian, Zeros, ZeroPadding;
    SpillZeros(|m|);
    Regrouped(m, [0x80], Zeros(63 - |m| % 64), Zeros(56), BigEndian(8 * |m| % UINT64_RANGE, 8));
  }

  lemma SpillZeros(len: nat)
    requires 56 <= len % 64
    ensures Zeros(ZeroPadding(len)) == Zeros(63 - len % 64) + Zeros(56)
  {
    assert ZeroPadding(len) == 119 - len % 64;
  }

  lemma Regrouped(m: bytes, x: bytes, a: bytes, b: bytes, c: bytes)
    ensures m + x + (a + b) + c == m + (x + a) + (b + c)
  {
    assert m + x + (a + b) == m + (x + a) + b;
  }

  /** SHA2_CTX; `Message` is everything taken in since the last `Init`. */
  class Context {
    const state: array<word>
    const buffer: array<byte>
    var bitcount: nat
    ghost var Message: bytes

    ghost predicate Allocated() {
      state.Length == 8 && buffer.Length == 64
    }

    ghost predicate Valid()
      reads this, state, buffer
    {
      Allocated() && Absorbed(state[..], bitcount, buffer[..], Message)
    }

    constructor ()
      ensures fresh(state) && fresh(buffer) && Allocated()
    {
      state := new word[8];
      buffer := new byte[64];
    }

    /** Structure assignment: the copy goes its own way afterwards. */
    method Assign(from: Context)
      requires Allocated() && from.Valid() && state != from.state && buffer != from.buffer && this != from
      modifies this, state, buffer
      ensures Valid() && Message == from.Message
    {
      hide Absorbed;
      ghost var st, buf := from.state[..], from.buffer[..];
      forall i | 0 <= i < 8 { state[i] := from.state[i]; }
      forall i | 0 <= i < 64 { buffer[i] := from.buffer[i]; }
      bitcount := from.bitcount;
      Message := from.Message;
      assert state[..] == st;
      assert buffer[..] == buf;
    }

    method Init()
      requires Allocated()
      modifies this, state, buffer
      ensures Valid() && Message == []
    {
      forall i | 0 <= i < 8 { state[i] := INITIAL_HASH[i]; }
      forall i | 0 <= i < 64 { buffer[i] := 0; }
      bitcount := 0;
      Message := [];
      assert state[..] == INITIAL_HASH;
    }

    /** How much of the partial block is in use, from the bit count. */
    function UsedBytes(): (used: nat)
      requires Valid()
      reads this, state, buffer
      ensures used == |Message| % 64
    {
      UsedSpace(|Message|);
      bitcount / 8 % 64
    }

    /** Copy octets into the partial block and count them. */
    method Stash(used: nat, p: bytes)
      requires Allocated() && used + |p| <= 64
      modifies this`bitcount, buffer
      ensures buffer[..used] == old(buffer[..used]) && buffer[used..used + |p|] == p
      ensures bitcount == (old(bitcount) + 8 * |p|) % UINT64_RANGE
    {
      forall k | 0 <= k < |p| { buffer[used + k] := p[k]; }
      bitcount := (bitcount + 8 * |p|) % UINT64_RANGE;
    }

    /** Take in octets that leave the partial block unfinished. */
    method StashPartial(used: nat, p: bytes)
      requires Valid() && used == |Message| % 64 && used + |p| < 64
      modifies this, buffer
      ensures Valid() && Message == old(Message) + p
    {
      hide Compress, CompressBlocks;
      ghost var st, bits, buf, m := state[..], bitcount, buffer[..], Message;
      Stash(used, p);
      assert buffer[..used + |p|] == buf[..used] + p;
      BufferGrows(st, bits, buf, m, p, buffer[..]);
      Message := m + p;
    }

    /** Take in octets that finish the partial block, and fold that block in. */
    method StashBlock(used: nat, p: bytes)
      requires Valid() && used == |Message| % 64 && used + |p| == 64
      modifies this, state, buffer
      ensures Valid() && Message == old(Message) + p
    {
      hide Compress, CompressBlocks;
      ghost var st, bits, buf, m := state[..], bitcount, buffer[..], Message;
      Stash(used, p);
      assert buffer[..] == m[|m| - |m| % 64..] + p;
      BlockCompletes(st, bits, buf, m, p, buffer[..]);
      TransformUnrolled(state, buffer[..]);
      Message := m + p;
    }

    /** Fold in a block straight from the caller's data. */
    method FoldBlock(block: bytes)
      requires Valid() && |Message| % 64 == 0 && |block| == 64
      modifies this, state
      ensures Valid() && Message == old(Message) + block
    {
      hide Compress, CompressBlocks;
      ghost var st, bits, m := state[..], bitcount, Message;
      TransformUnrolled(state, block);
      bitcount := (bitcount + 8 * 64) % UINT64_RANGE;
      BlockCompletes(st, bits, buffer[..], m, block, buffer[..]);
      assert m[|m| - |m| % 64..] + block == block;
      Message := m + block;
    }

    method Update(data: bytes)
      requires Valid()
      modifies this, state, buffer
      ensures Valid() && Message == old(Message) + data
    {
      hide Absorbed;
      ghost var m := Message;
      if |data| == 0 {
        assert m + data == m;
        return;
      }
      var at := 0;
      var used := UsedBytes();
      if used > 0 {
        var free := 64 - used;
        if |data| >= free {
          StashBlock(used, data[..free]);
          at := free;
        } else {
          StashPartial(used, data);
          return;
        }
      }
      assert Message == m + data[..at];
      while |data| - at >= 64
        invariant 0 <= at <= |data|
        invariant Valid() && Message == m + data[..at]
        invariant |Message| % 64 == 0
      {
        var block := data[at..at + 64];
        FoldBlock(block);
        assert data[..at] + block == data[..at + 64];
        at := at + 64;
      }
      if |data| - at > 0 {
        StashPartial(0, data[at..]);
      }
      assert data[..at] + data[at..] == data;
    }

    /** Write octets `from` to `to` of the partial block as zeros. */
    method Clear(from: nat, to: nat)
      requires Allocated() && from <= to <= 64
      modifies buffer
      ensures buffer[..from] == old(buffer[..from]) && buffer[from..to] == Zeros(to - from)
      ensures buffer[to..] == old(buffer[to..])
    {
      forall k | from <= k < to { buffer[k] := 0; }
    }

    /** The bit count in the last eight octets of the buffer, most significant first. */
    method PutLength()
      requires Allocated()
      modifies buffer
      ensures buffer[..56] == old(buffer[..56]) && buffer[56..] == BigEndian(bitcount, 8)
    {
      hide BigEndian;
      var length := BigEndian(bitcount, 8);
      forall k | 0 <= k < 8 { buffer[56 + k] := length[k]; }
      assert buffer[56..] == length;
    }

    /**
     * The 0x80 octet and the zeros up to the place of the length, after folding in the
     * block that has no room for the length.
     */
    method PadFront()
      requires Valid()
      modifies state, buffer
      ensures Allocated()
      ensures var m := old(Message);
              var u := |m| % 64;
              var tail := m[|m| - u..];
              && buffer[..56] == (if u <= 55 then tail + [0x80] + Zeros(55 - u) else Zeros(56))
              && state[..] == (if u <= 55 then old(state[..])
                               else Compress(old(state[..]), tail + [0x80] + Zeros(63 - u)))
    {
      hide Compress, CompressBlocks, BigEndian, Pad;
      ghost var m, u := Message, |Message| % 64;
      ghost var tail := m[|m| - u..];
      var used := UsedBytes();
      if used > 0 {
        buffer[used] := 0x80;
        used := used + 1;
        assert buffer[..used] == tail + [0x80];
        if used <= 56 {
          Clear(used, 56);
          ZerosFollow(buffer[..], tail + [0x80], 56);
        } else {
          if used < 64 {
            Clear(used, 64);
          }
          ZerosFollow(buffer[..], tail + [0x80], 64);
          TransformUnrolled(state, buffer[..]);
          Clear(0, 56);
        }
      } else {
        Clear(0, 56);
        buffer[0] := 0x80;
        assert buffer[..56] == tail + [0x80] + Zeros(55 - u);
      }
    }

    /** Pad the message and fold in its last one or two blocks. */
    method PadAndTransform()
      requires Valid()
      modifies this, state, buffer
      ensures Allocated()
      ensures |Pad(old(Message))| % 64 == 0
      ensures state[..] == CompressBlocks(INITIAL_HASH, Pad(old(Message)), |Pad(old(Message))| / 64)
    {
      hide Compress, CompressBlocks, BigEndian, Pad;
      ghost var m := Message;
      PadFront();
      PutLength();
      assert buffer[..] == buffer[..56] + buffer[56..];
      if |m| % 64 <= 55 {
        PadInOneBlock(m);
      } else {
        PadInTwoBlocks(m);
      }
      TransformUnrolled(state, buffer[..]);
    }

    /** SHA256Final: the digest of everything taken in; the context is cleared. */
    method Final() returns (digest: bytes)
      requires Valid()
      modifies this, state, buffer
      ensures digest == Sha256(old(Message))
      ensures Allocated() && bitcount == 0
      ensures (forall i :: 0 <= i < 8 ==> state[i] == 0) && (forall i :: 0 <= i < 64 ==> buffer[i] == 0)
    {
      hide CompressBlocks, Pad;
      PadAndTransform();
      digest := StoreWords(state[..]);
      forall i | 0 <= i < 8 { state[i] := 0; }
      forall i | 0 <= i < 64 { buffer[i] := 0; }
      bitcount := 0;
    }
  }

  /** Init, any sequence of Updates and Final give the one-shot hash of the concatenation. */
  method HashPieces(pieces: seq<bytes>) returns (digest: bytes)
    ensures digest == Sha256(Concat(pieces))
  {
    hide Compress, CompressBlocks, Absorbed, Sha256;
    var ctx := new Context();
    ctx.Init();
    assert pieces[..0] == [];
    for i := 0 to |pieces|
      invariant fresh(ctx) && fresh(ctx.state) && fresh(ctx.buffer)
      invariant ctx.Valid() && ctx.Message == Concat(pieces[..i])
    {
      assert pieces[..i + 1][..i] == pieces[..i];
      ctx.Update(pieces[i]);
    }
    assert pieces[..|pieces|] == pieces;
    digest := ctx.Final();
  }
}
