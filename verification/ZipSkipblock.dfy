/**
 * `--skipblock` on a member of a zip archive, which is never rewound: the digest of a chunk is
 * taken of what comes next in the member, and a rewrite stores what follows that.
 */
module ZipSkipblock {
  import opened Bytes
  import opened Numerals
  import opened Sha256Spec
  import opened Flash
  import opened Files
  import opened Programming
  import opened Skipblock

  /** No chunk of the run is kept for a digest that different contents share. */
  ghost predicate Safe(z: SkipRun, flash: Flash, off: nat, at: nat, idx: nat)
    requires z.Valid()
    decreases z.num - off
  {
    off < z.num ==>
      if z.Kept(flash, off, at, idx) then
        && Region(flash, z.e.partition, z.Start(off), z.Count(off), z.ss) == z.Data(off, at)
        && Safe(z, flash, off + z.Count(off), Next(z, off, at), idx + 1)
      else Safe(z, z.Rewritten(flash, off, at), off + z.Count(off), Next(z, off, Next(z, off, at)), idx + 1)
  }

  /** Where the member is after one more reading of the chunk at `off`. */
  function Next(z: SkipRun, off: nat, at: nat): nat
    requires z.Valid() && off < z.num
  {
    at + z.Count(off) * z.ss
  }

  /** What each chunk ends up with: the data its digest was taken of, or what follows that. */
  ghost function ZipParts(z: SkipRun, flash: Flash, off: nat, at: nat, idx: nat): (r: seq<bytes>)
    requires z.Valid()
    ensures Shaped(z, off, r)
    decreases z.num - off
  {
    hide SkipRun.Kept, SkipRun.Count, SkipRun.Start, SkipRun.Data, SkipRun.Rewritten, Next, OnTop;
    if off >= z.num then []
    else if z.Kept(flash, off, at, idx) then
      OnTop(z, off, z.Data(off, at), ZipParts(z, flash, off + z.Count(off), Next(z, off, at), idx + 1))
    else
      OnTop(z, off, z.Data(off, Next(z, off, at)),
            ZipParts(z, z.Rewritten(flash, off, at), off + z.Count(off), Next(z, off, Next(z, off, at)), idx + 1))
  }

  lemma {:induction false} ZipChunksAreParts(z: SkipRun, flash: Flash, off: nat, at: nat, idx: nat)
    requires z.Valid() && Safe(z, flash, off, at, idx)
    ensures z.ZipChunks(flash, off, at, idx) == WriteParts(z, flash, off, ZipParts(z, flash, off, at, idx))
    decreases z.num - off
  {
    hide WriteSectors, SkipRun.Start, SkipRun.Count, SkipRun.Data, SkipRun.Kept, WriteParts, Shaped;
    if off >= z.num {
      NoParts(z, flash, off);
    } else if z.Kept(flash, off, at, idx) {
      KeptIsCovered(z, flash, off, at, idx);
      RewriteIsNoop(flash, z.e.partition, z.Start(off), z.Count(off), z.ss);
      ZipChunksAreParts(z, flash, off + z.Count(off), Next(z, off, at), idx + 1);
      OnePart(z, flash, off, z.Data(off, at), ZipParts(z, flash, off + z.Count(off), Next(z, off, at), idx + 1));
    } else {
      var next := z.Rewritten(flash, off, at);
      ZipChunksAreParts(z, next, off + z.Count(off), Next(z, off, Next(z, off, at)), idx + 1);
      OnePart(z, flash, off, z.Data(off, Next(z, off, at)),
              ZipParts(z, next, off + z.Count(off), Next(z, off, Next(z, off, at)), idx + 1));
    }
  }

  lemma NoParts(z: SkipRun, flash: Flash, off: nat)
    requires z.Valid() && off >= z.num
    ensures WriteParts(z, flash, off, []) == flash
  {
  }

  lemma KeptIsCovered(z: SkipRun, flash: Flash, off: nat, at: nat, idx: nat)
    requires z.Valid() && off < z.num && z.Kept(flash, off, at, idx)
    ensures Covers(flash, z.e.partition, z.Start(off), z.Count(off), z.ss)
  {
  }

  lemma OnePart(z: SkipRun, flash: Flash, off: nat, part: bytes, rest: seq<bytes>)
    requires z.Valid() && off < z.num && |part| == z.Count(off) * z.ss && Shaped(z, off + z.Count(off), rest)
    ensures Shaped(z, off, [part] + rest)
    ensures WriteParts(z, flash, off, [part] + rest)
         == WriteParts(z, WriteSectors(flash, z.e.partition, z.Start(off), z.ss, part), off + z.Count(off), rest)
  {
    hide WriteSectors, SkipRun.Start, SkipRun.Count;
    assert ([part] + rest)[1..] == rest;
  }

  /**
   * One run, whatever its digests and replies: it ends where plain programming does exactly
   * when its chunks together ended up with the member's data.
   */
  lemma ZipRunAgreesIff(z: SkipRun, flash: Flash)
    requires Typed(z) && Addressable(z) && Safe(z, flash, 0, 0, 0)
    ensures SkipblockResult(ZipMember, z, flash) == PlainResult(ZipMember, z, flash)
        <==> Joined(ZipParts(z, flash, 0, 0, 0)) == PlainData(ZipMember, z)
  {
    hide WriteSectors, SkipRun.Start, ReadsDecimals, Base, Addressable, Joined, WriteParts, Safe, ZipParts,
        SkipRun.ZipChunks;
    ZipChunksAreParts(z, flash, 0, 0, 0);
    PartsAgree(z, flash, ZipParts(z, flash, 0, 0, 0), PlainData(ZipMember, z));
  }

  // ----- When every run agrees

  /** With the member at `at`, a chunk gets its data whether it is kept or rewritten. */
  predicate Right(z: SkipRun, off: nat, at: nat)
    requires z.Valid() && off < z.num
  {
    z.Data(off, at) == z.Data(off, off * z.ss) && z.Data(off, Next(z, off, at)) == z.Data(off, off * z.ss)
  }

  /** So do all chunks from `off` on, whichever of them are rewritten. */
  predicate AllRight(z: SkipRun, off: nat, at: nat)
    requires z.Valid()
    decreases z.num - off
  {
    off < z.num ==>
      && Right(z, off, at)
      && AllRight(z, off + z.Count(off), Next(z, off, at))
      && AllRight(z, off + z.Count(off), Next(z, off, Next(z, off, at)))
  }

  /** The member's data from the chunk at `off` on. */
  function RestOf(z: SkipRun, off: nat): (r: bytes)
    requires off <= z.num
    ensures |r| == (z.num - off) * z.ss
  {
    Padded(z.content, off * z.ss, (z.num - off) * z.ss)
  }

  lemma RestSplits(z: SkipRun, off: nat)
    requires z.Valid() && off < z.num
    ensures RestOf(z, off) == z.Data(off, off * z.ss) + RestOf(z, off + z.Count(off))
  {
    hide Padded, SkipRun.Count;
    RegionSplits(z.content, off, z.Count(off), z.num - off - z.Count(off), z.ss);
  }

  lemma NoRest(z: SkipRun)
    ensures RestOf(z, z.num) == []
  {
  }

  lemma {:induction false} RightRuns(z: SkipRun, flash: Flash, off: nat, at: nat, idx: nat)
    requires z.Valid() && off <= z.num && AllRight(z, off, at)
    ensures Joined(ZipParts(z, flash, off, at, idx)) == RestOf(z, off)
    decreases z.num - off
  {
    hide SkipRun.Count, SkipRun.Data, SkipRun.Kept, SkipRun.Rewritten, RestOf;
    if off < z.num {
      RestSplits(z, off);
      var parts := ZipParts(z, flash, off, at, idx);
      if z.Kept(flash, off, at, idx) {
        RightRuns(z, flash, off + z.Count(off), Next(z, off, at), idx + 1);
        assert parts[1..] == ZipParts(z, flash, off + z.Count(off), Next(z, off, at), idx + 1);
      } else {
        var next := z.Rewritten(flash, off, at);
        RightRuns(z, next, off + z.Count(off), Next(z, off, Next(z, off, at)), idx + 1);
        assert parts[1..] == ZipParts(z, next, off + z.Count(off), Next(z, off, Next(z, off, at)), idx + 1);
      }
    } else {
      NoRest(z);
    }
  }

  // ----- A run goes by the sectors and replies that are still ahead of it

  /** The same from a sector of the programmed partition on. */
  ghost predicate SameFrom(z: SkipRun, f: Flash, g: Flash, sector: nat) {
    forall k: nat :: sector <= k ==>
      (Addr(z.e.partition, k) in f <==> Addr(z.e.partition, k) in g)
      && (Addr(z.e.partition, k) in f ==> f[Addr(z.e.partition, k)] == g[Addr(z.e.partition, k)])
  }

  ghost predicate SameReplies(z: SkipRun, y: SkipRun, idx: nat) {
    y == z.(replies := y.replies) && forall i: nat :: idx <= i ==> y.replies(i) == z.replies(i)
  }

  lemma SameKept(z: SkipRun, y: SkipRun, f: Flash, g: Flash, off: nat, at: nat, idx: nat)
    requires z.Valid() && off < z.num && SameReplies(z, y, idx) && SameFrom(z, f, g, z.Start(off))
    ensures z.Kept(f, off, at, idx) <==> y.Kept(g, off, at, idx)
    ensures z.Kept(f, off, at, idx) ==>
              Region(f, z.e.partition, z.Start(off), z.Count(off), z.ss)
              == Region(g, z.e.partition, z.Start(off), z.Count(off), z.ss)
  {
    hide SkipRun.Start, SkipRun.Count, Sha256;
    var p, start, n := z.e.partition, z.Start(off), z.Count(off);
    assert y.Start(off) == start && y.Count(off) == n && y.Data(off, at) == z.Data(off, at)
        by { SameRun(z, y, off, at); }
    if Covers(f, p, start, n, z.ss) { RegionUnchanged(f, g, p, start, n, z.ss); }
    if Covers(g, p, start, n, z.ss) { RegionUnchanged(g, f, p, start, n, z.ss); }
  }

  lemma SameRun(z: SkipRun, y: SkipRun, off: nat, at: nat)
    requires z.Valid() && off < z.num && y == z.(replies := y.replies)
    ensures y.Valid() && y.Start(off) == z.Start(off) && y.Count(off) == z.Count(off)
            && y.Data(off, at) == z.Data(off, at)
    ensures Next(y, off, at) == Next(z, off, at)
  {
  }

  /** A write leaves what is behind it the same. */
  lemma WriteKeeps(z: SkipRun, f: Flash, start: nat, num: nat, data: bytes)
    requires z.Valid() && |data| == num * z.ss
    ensures SameFrom(z, WriteSectors(f, z.e.partition, start, z.ss, data), f, start + num)
  {
    hide WriteSectors;
    var w := WriteSectors(f, z.e.partition, start, z.ss, data);
    forall k: nat | start + num <= k
      ensures Addr(z.e.partition, k) in w <==> Addr(z.e.partition, k) in f
      ensures Addr(z.e.partition, k) in w ==> w[Addr(z.e.partition, k)] == f[Addr(z.e.partition, k)]
    {
      WriteSectorsOutside(f, z.e.partition, start, z.ss, data, num, Addr(z.e.partition, k));
    }
  }

  lemma SameThrough(z: SkipRun, f: Flash, g: Flash, h: Flash, from: nat, sector: nat)
    requires SameFrom(z, f, g, sector) && (SameFrom(z, g, h, from) || SameFrom(z, h, g, from)) && from <= sector
    ensures SameFrom(z, f, h, sector)
  {
  }

  lemma {:induction false} SameParts(z: SkipRun, y: SkipRun, f: Flash, g: Flash, off: nat, at: nat, idx: nat)
    requires z.Valid() && InPlace(z, off) && SameReplies(z, y, idx)
    requires off < z.num ==> SameFrom(z, f, g, z.Start(off))
    ensures ZipParts(z, f, off, at, idx) == ZipParts(y, g, off, at, idx)
    ensures Safe(z, f, off, at, idx) <==> Safe(y, g, off, at, idx)
    decreases z.num - off
  {
    hide SkipRun.Count, SkipRun.Data, SkipRun.Kept, SkipRun.Rewritten, SkipRun.Start, SameFrom, Next;
    if off < z.num {
      SameKept(z, y, f, g, off, at, idx);
      SameRun(z, y, off, at);
      SameRun(z, y, off, Next(z, off, at));
      var n, at' := z.Count(off), Next(z, off, at);
      if z.Kept(f, off, at, idx) {
        if off + n < z.num { LaterSame(z, f, g, z.Start(off), z.Start(off + n)); }
        SameParts(z, y, f, g, off + n, at', idx + 1);
      } else {
        RewrittenSame(z, y, f, g, off, at);
        SameParts(z, y, z.Rewritten(f, off, at), y.Rewritten(g, off, at), off + n, Next(z, off, at'), idx + 1);
      }
    }
  }

  lemma LaterSame(z: SkipRun, f: Flash, g: Flash, from: nat, to: nat)
    requires SameFrom(z, f, g, from) && from <= to
    ensures SameFrom(z, f, g, to)
  {
  }

  lemma RewrittenSame(z: SkipRun, y: SkipRun, f: Flash, g: Flash, off: nat, at: nat)
    requires z.Valid() && off < z.num && y == z.(replies := y.replies) && SameFrom(z, f, g, z.Start(off))
    ensures y.Valid() && SameFrom(z, z.Rewritten(f, off, at), y.Rewritten(g, off, at), z.Start(off) + z.Count(off))
  {
    hide SkipRun.Count, SkipRun.Data, SkipRun.Start, SameFrom, WriteSectors;
    var start, n, data := z.Start(off), z.Count(off), z.Data(off, Next(z, off, at));
    SameRun(z, y, off, Next(z, off, at));
    WriteKeeps(z, f, start, n, data);
    WriteKeeps(z, g, start, n, data);
    SameThrough(z, z.Rewritten(f, off, at), f, g, start, start + n);
    SameThrough(z, z.Rewritten(f, off, at), g, y.Rewritten(g, off, at), start + n, start + n);
  }

  // ----- A run that goes wrong

  /** Without replies no chunk is kept. */
  lemma {:induction false} SilentIsSafe(z: SkipRun, flash: Flash, off: nat, at: nat, idx: nat)
    requires z.Valid() && forall i: nat :: idx <= i ==> !z.replies(i)
    ensures Safe(z, flash, off, at, idx)
    decreases z.num - off
  {
    hide SkipRun.Count, SkipRun.Rewritten;
    if off < z.num {
      SilentIsSafe(z, z.Rewritten(flash, off, at), off + z.Count(off), Next(z, off, Next(z, off, at)), idx + 1);
    }
  }

  /** What has been written is there. */
  lemma {:induction false} RegionWritten(flash: Flash, p: int, start: nat, num: nat, ss: nat, data: bytes)
    requires 0 < ss && |data| == num * ss
    ensures Covers(WriteSectors(flash, p, start, ss, data), p, start, num, ss)
    ensures Region(WriteSectors(flash, p, start, ss, data), p, start, num, ss) == data
    decreases num
  {
    if num > 0 {
      assert num * ss == (num - 1) * ss + ss;
      var flash' := flash[Addr(p, start) := data[..ss]];
      var w := WriteSectors(flash', p, start + 1, ss, data[ss..]);
      RegionWritten(flash', p, start + 1, num - 1, ss, data[ss..]);
      WriteSectorsOutside(flash', p, start + 1, ss, data[ss..], num - 1, Addr(p, start));
      assert data == data[..ss] + data[ss..];
    }
  }

  /** The replies of a run, but for one. */
  function Replying(replies: nat -> bool, idx: nat, reply: bool): nat -> bool {
    (i: nat) => if i == idx then reply else replies(i)
  }

  /** Parts that begin or go on wrong. */
  lemma WrongParts(z: SkipRun, off: nat, head: bytes, rest: seq<bytes>)
    requires z.Valid() && off < z.num && |head| == z.Count(off) * z.ss && Shaped(z, off + z.Count(off), rest)
    requires head != z.Data(off, off * z.ss) || Joined(rest) != RestOf(z, off + z.Count(off))
    ensures Joined([head] + rest) != RestOf(z, off)
  {
    hide SkipRun.Count, RestOf, SkipRun.Data, Shaped;
    RestSplits(z, off);
    assert ([head] + rest)[1..] == rest;
    SamePieces(head, Joined(rest), z.Data(off, off * z.ss), RestOf(z, off + z.Count(off)));
  }

  lemma SamePieces(a: bytes, x: bytes, b: bytes, y: bytes)
    requires |a| == |b|
    ensures a + x == b + y <==> a == b && x == y
  {
    assert (a + x)[..|a|] == a && (b + y)[..|a|] == b;
    assert (a + x)[|a|..] == x && (b + y)[|a|..] == y;
  }

  /** A run that keeps its first chunk, and then goes on as another one. */
  lemma KeepFirst(z: SkipRun, off: nat, at: nat, idx: nat, flash: Flash) returns (y: SkipRun, f: Flash)
    requires z.Valid() && off < z.num && InPlace(z, off)
             && Safe(z, flash, off + z.Count(off), Next(z, off, at), idx + 1)
    ensures y == z.(replies := y.replies) && Safe(y, f, off, at, idx)
    ensures ZipParts(y, f, off, at, idx)
         == [z.Data(off, at)] + ZipParts(z, flash, off + z.Count(off), Next(z, off, at), idx + 1)
  {
    hide SkipRun.Count, SkipRun.Data, SkipRun.Rewritten, SkipRun.Start, SameFrom, Next, WriteSectors, Sha256;
    var p, start, n := z.e.partition, z.Start(off), z.Count(off);
    y := z.(replies := Replying(z.replies, idx, true));
    f := WriteSectors(flash, p, start, z.ss, z.Data(off, at));
    SameRun(z, y, off, at);
    RegionWritten(flash, p, start, n, z.ss, z.Data(off, at));
    assert y.Kept(f, off, at, idx);
    WriteKeeps(z, flash, start, n, z.Data(off, at));
    SameThrough(z, f, flash, f, start + n, start + n);
    Turned(z, flash, f, start + n);
    SameParts(z, y, flash, f, off + n, Next(z, off, at), idx + 1);
  }

  lemma Turned(z: SkipRun, f: Flash, g: Flash, from: nat)
    requires SameFrom(z, g, f, from)
    ensures SameFrom(z, f, g, from)
  {
  }

  /** A run that rewrites its first chunk, and then goes on as another one. */
  lemma RewriteFirst(z: SkipRun, off: nat, at: nat, idx: nat, flash: Flash) returns (y: SkipRun)
    requires z.Valid() && off < z.num && InPlace(z, off)
    requires Safe(z, flash, off + z.Count(off), Next(z, off, Next(z, off, at)), idx + 1)
    ensures y == z.(replies := y.replies) && Safe(y, flash, off, at, idx)
    ensures ZipParts(y, flash, off, at, idx)
         == [z.Data(off, Next(z, off, at))]
            + ZipParts(z, flash, off + z.Count(off), Next(z, off, Next(z, off, at)), idx + 1)
  {
    hide SkipRun.Count, SkipRun.Data, SkipRun.Start, SameFrom, WriteSectors, Sha256;
    var start, n := z.Start(off), z.Count(off);
    y := z.(replies := Replying(z.replies, idx, false));
    SameRun(z, y, off, at);
    SameRun(z, y, off, Next(z, off, at));
    WriteKeeps(z, flash, start, n, z.Data(off, Next(z, off, at)));
    var w := y.Rewritten(flash, off, at);
    Turned(z, flash, w, start + n);
    SameParts(z, y, flash, w, off + n, Next(z, off, Next(z, off, at)), idx + 1);
  }

  lemma {:induction false} SameInPlace(z: SkipRun, y: SkipRun, off: nat)
    requires z.Valid() && y == z.(replies := y.replies) && InPlace(z, off)
    ensures y.Valid() && InPlace(y, off)
    decreases z.num - off
  {
    if off < z.num { SameInPlace(z, y, off + z.Count(off)); }
  }

  /** Keep the first chunk, which is wrong or is followed by something wrong. */
  lemma KeepWrong(z: SkipRun, w: SkipRun, off: nat, at: nat, idx: nat, f: Flash) returns (y: SkipRun, flash: Flash)
    requires z.Valid() && off < z.num && InPlace(z, off) && w == z.(replies := w.replies)
    requires Safe(w, f, off + z.Count(off), Next(z, off, at), idx + 1)
    requires z.Data(off, at) != z.Data(off, off * z.ss)
             || Joined(ZipParts(w, f, off + z.Count(off), Next(z, off, at), idx + 1)) != RestOf(z, off + z.Count(off))
    ensures y == z.(replies := y.replies) && Safe(y, flash, off, at, idx)
    ensures Joined(ZipParts(y, flash, off, at, idx)) != RestOf(z, off)
  {
    hide SkipRun.Count, SkipRun.Data, SkipRun.Start, Next, RestOf, Joined, Safe, ZipParts, InPlace, Shaped;
    SameInPlace(z, w, off);
    SameRun(z, w, off, at);
    y, flash := KeepFirst(w, off, at, idx, f);
    PartsShaped(z, w, f, off + z.Count(off), Next(z, off, at), idx + 1);
    WrongParts(z, off, z.Data(off, at), ZipParts(w, f, off + z.Count(off), Next(z, off, at), idx + 1));
  }

  /** Rewrite the first chunk, which is wrong or is followed by something wrong. */
  lemma RewriteWrong(z: SkipRun, w: SkipRun, off: nat, at: nat, idx: nat, flash: Flash) returns (y: SkipRun)
    requires z.Valid() && off < z.num && InPlace(z, off) && w == z.(replies := w.replies)
    requires Safe(w, flash, off + z.Count(off), Next(z, off, Next(z, off, at)), idx + 1)
    requires z.Data(off, Next(z, off, at)) != z.Data(off, off * z.ss)
             || Joined(ZipParts(w, flash, off + z.Count(off), Next(z, off, Next(z, off, at)), idx + 1))
                != RestOf(z, off + z.Count(off))
    ensures y == z.(replies := y.replies) && Safe(y, flash, off, at, idx)
    ensures Joined(ZipParts(y, flash, off, at, idx)) != RestOf(z, off)
  {
    hide SkipRun.Count, SkipRun.Data, SkipRun.Start, Next, RestOf, Joined, Safe, ZipParts, InPlace, Shaped;
    SameInPlace(z, w, off);
    SameRun(z, w, off, at);
    SameRun(z, w, off, Next(z, off, at));
    y := RewriteFirst(w, off, at, idx, flash);
    var at2 := Next(z, off, Next(z, off, at));
    PartsShaped(z, w, flash, off + z.Count(off), at2, idx + 1);
    WrongParts(z, off, z.Data(off, Next(z, off, at)), ZipParts(w, flash, off + z.Count(off), at2, idx + 1));
  }

  lemma {:induction false} PartsShaped(z: SkipRun, w: SkipRun, flash: Flash, off: nat, at: nat, idx: nat)
    requires z.Valid() && w == z.(replies := w.replies)
    ensures w.Valid() && Shaped(z, off, ZipParts(w, flash, off, at, idx))
  {
    SameShape(z, w, off, ZipParts(w, flash, off, at, idx));
  }

  lemma {:induction false} SameShape(z: SkipRun, w: SkipRun, off: nat, parts: seq<bytes>)
    requires z.Valid() && w == z.(replies := w.replies) && Shaped(w, off, parts)
    ensures Shaped(z, off, parts)
    decreases |parts|
  {
    if off < z.num { SameShape(z, w, off + z.Count(off), parts[1..]); }
  }

  /** Where some chunk may get wrong data, some run gives it to it. */
  lemma {:induction false} WrongRun(z: SkipRun, off: nat, at: nat, idx: nat) returns (y: SkipRun, flash: Flash)
    requires z.Valid() && off < z.num && InPlace(z, off) && !AllRight(z, off, at)
    ensures y == z.(replies := y.replies) && Safe(y, flash, off, at, idx)
    ensures Joined(ZipParts(y, flash, off, at, idx)) != RestOf(z, off)
    decreases z.num - off
  {
    hide SkipRun.Count, SkipRun.Data, SkipRun.Start, Next, RestOf, Joined, Safe, ZipParts;
    var n, at1, at2 := z.Count(off), Next(z, off, at), Next(z, off, Next(z, off, at));
    var silent := z.(replies := _ => false);
    SilentIsSafe(silent, map[], off + n, at1, idx + 1);
    SilentIsSafe(silent, map[], off + n, at2, idx + 1);
    if z.Data(off, at) != z.Data(off, off * z.ss) {
      y, flash := KeepWrong(z, silent, off, at, idx, map[]);
    } else if z.Data(off, at1) != z.Data(off, off * z.ss) {
      flash := map[];
      y := RewriteWrong(z, silent, off, at, idx, flash);
    } else if !AllRight(z, off + n, at1) {
      y, flash := WrongRun(z, off + n, at1, idx + 1);
      y, flash := KeepWrong(z, y, off, at, idx, flash);
    } else {
      y, flash := WrongRun(z, off + n, at2, idx + 1);
      y := RewriteWrong(z, y, off, at, idx, flash);
    }
  }

  /**
   * Skipblock on a zip member leaves what plain programming does, for every flash and whatever
   * the device answers, exactly when the region is addressed as for host files and every chunk
   * gets its data wherever earlier rewrites have left the member.
   */
  lemma ZipSkipblockIff(z: SkipRun)
    requires Typed(z)
    ensures (forall flash, replies | Safe(z.(replies := replies), flash, 0, 0, 0) ::
               SkipblockResult(ZipMember, z.(replies := replies), flash) == PlainResult(ZipMember, z, flash))
        <==> Addressable(z) && AllRight(z, 0, 0)
  {
    hide WriteSectors, SkipRun.Start, ReadsDecimals, Base, Addressable, Joined, Safe, ZipParts, SkipRun.ZipChunks,
        AllRight,
         PlainData, RestOf;
    if Addressable(z) && AllRight(z, 0, 0) {
      forall flash, replies | Safe(z.(replies := replies), flash, 0, 0, 0)
        ensures SkipblockResult(ZipMember, z.(replies := replies), flash) == PlainResult(ZipMember, z, flash)
      {
        RightAgrees(z, z.(replies := replies), flash);
      }
    } else {
      var y, flash := Disagreement(z);
      assert y == z.(replies := y.replies);
    }
  }

  lemma RightAgrees(z: SkipRun, y: SkipRun, flash: Flash)
    requires Typed(z) && Addressable(z) && AllRight(z, 0, 0) && y == z.(replies := y.replies) && Safe(y, flash, 0, 0, 0)
    ensures SkipblockResult(ZipMember, y, flash) == PlainResult(ZipMember, z, flash)
  {
    hide WriteSectors, SkipRun.Start, Joined, Safe, ZipParts, SkipRun.ZipChunks, AllRight;
    SameCondition(z, y, 0, 0);
    ZipRunAgreesIff(y, flash);
    RightRuns(y, flash, 0, 0, 0);
    assert RestOf(y, 0) == PlainData(ZipMember, y);
    SamePlain(z, y, flash);
  }

  lemma SamePlain(z: SkipRun, y: SkipRun, flash: Flash)
    requires z.Valid() && y == z.(replies := y.replies)
    ensures PlainResult(ZipMember, y, flash) == PlainResult(ZipMember, z, flash)
    ensures PlainData(ZipMember, y) == PlainData(ZipMember, z) == RestOf(y, 0) == RestOf(z, 0)
  {
    hide WriteSectors, Padded, ChunkStart;
  }

  lemma {:induction false} SameCondition(z: SkipRun, y: SkipRun, off: nat, at: nat)
    requires z.Valid() && y == z.(replies := y.replies)
    ensures AllRight(y, off, at) <==> AllRight(z, off, at)
    ensures Addressable(y) <==> Addressable(z)
    decreases z.num - off
  {
    hide SkipRun.Count, SkipRun.Data, SkipRun.Start;
    if z.num > 0 { SameLast(z, y, 0); }
    SameBase(z, y);
    if off < z.num {
      SameRun(z, y, off, at);
      SameRun(z, y, off, off * z.ss);
      SameRun(z, y, off, Next(z, off, at));
      SameCondition(z, y, off + z.Count(off), Next(z, off, at));
      SameCondition(z, y, off + z.Count(off), Next(z, off, Next(z, off, at)));
    }
  }

  lemma SameBase(z: SkipRun, y: SkipRun)
    requires z.Valid() && y == z.(replies := y.replies)
    ensures y.Start(0) == z.Start(0) && Base(y) == Base(z)
  {
  }

  /** A run that leaves something else. */
  lemma Disagreement(z: SkipRun) returns (y: SkipRun, flash: Flash)
    requires Typed(z) && !(Addressable(z) && AllRight(z, 0, 0))
    ensures y == z.(replies := y.replies) && Safe(y, flash, 0, 0, 0)
    ensures SkipblockResult(ZipMember, y, flash) != PlainResult(ZipMember, z, flash)
  {
    hide WriteSectors, SkipRun.Start, ReadsDecimals, Base, Addressable, Joined, Safe, ZipParts, SkipRun.ZipChunks,
        AllRight,
         PlainData, RestOf;
    if Addressable(z) {
      AddressableInPlace(z);
      if z.num == 0 { NothingWrong(z); }
      y, flash := WrongRun(z, 0, 0, 0);
      SameCondition(z, y, 0, 0);
      ZipRunAgreesIff(y, flash);
      SamePlain(z, y, flash);
    } else {
      y, flash := z.(replies := _ => false), map[];
      SilentIsSafe(y, flash, 0, 0, 0);
      SameCondition(z, y, 0, 0);
      ZipChunksAreParts(y, flash, 0, 0, 0);
      PartsAgreeIff(y, ZipParts(y, flash, 0, 0, 0), PlainData(ZipMember, y));
      SamePlain(z, y, flash);
    }
  }

  lemma NothingWrong(z: SkipRun)
    requires z.Valid() && z.num == 0
    ensures AllRight(z, 0, 0)
  {
  }

  // ----- What that means

  /** A byte of a member, which reads as zero behind its end. */
  function ByteAt(content: bytes, i: nat): byte { if i < |content| then content[i] else 0 }

  /** A region of one chunk: every byte must be the one a whole region further on. */
  lemma OneChunkIff(z: SkipRun)
    requires z.Valid() && z.num <= ChunkMax(z.ss)
    ensures AllRight(z, 0, 0)
        <==> forall i: nat :: i < z.num * z.ss ==> ByteAt(z.content, i) == ByteAt(z.content, i + z.num * z.ss)
  {
    hide Padded;
    var len := z.num * z.ss;
    if z.num > 0 {
      assert z.Count(0) == z.num;
      assert 0 * z.ss == 0;
      SameBytes(z.content, len, 0, len);
      assert AllRight(z, 0, 0) <==> Padded(z.content, len, len) == Padded(z.content, 0, len);
      if AllRight(z, 0, 0) {
        forall i: nat | i < len ensures ByteAt(z.content, i) == ByteAt(z.content, i + len) {
          assert SameByte(z.content, len, 0, i);
        }
      }
    } else {
      assert len == 0;
    }
  }

  lemma SameBytes(content: bytes, a: nat, b: nat, len: nat)
    ensures Padded(content, a, len) == Padded(content, b, len) <==> forall i: nat :: i < len ==>
              SameByte(content, a, b, i)
  {
    hide Padded;
    var x, y := Padded(content, a, len), Padded(content, b, len);
    forall i: nat | i < len
      ensures SameByte(content, a, b, i) <==> x[i] == y[i]
    {
      PaddedAt(content, a, len, i);
      PaddedAt(content, b, len, i);
    }
    if forall i: nat :: i < len ==> SameByte(content, a, b, i) {
      forall i: nat | i < len ensures x[i] == y[i] { assert SameByte(content, a, b, i); }
      assert x == y;
    }
  }

  predicate SameByte(content: bytes, a: nat, b: nat, i: nat) { ByteAt(content, a + i) == ByteAt(content, b + i) }

  /** A member that fits the region, as it does unless it was cut short for a smaller partition, must be all zeros. */
  lemma WholeMemberIff(z: SkipRun)
    requires z.Valid() && |z.content| <= z.num * z.ss
    ensures AllRight(z, 0, 0) <==> forall i :: 0 <= i < |z.content| ==> z.content[i] == 0
  {
    if forall i :: 0 <= i < |z.content| ==> z.content[i] == 0 {
      ZerosAreRight(z, 0, 0);
    } else if AllRight(z, 0, 0) {
      var i :| 0 <= i < |z.content| && z.content[i] != 0;
      MustBeZero(z, i);
    }
  }

  lemma {:induction false} ZerosAreRight(z: SkipRun, off: nat, at: nat)
    requires z.Valid() && forall i :: 0 <= i < |z.content| ==> z.content[i] == 0
    ensures AllRight(z, off, at)
    decreases z.num - off
  {
    hide SkipRun.Count, Padded;
    if off < z.num {
      var len := z.Count(off) * z.ss;
      SameBytes(z.content, at, off * z.ss, len);
      SameBytes(z.content, Next(z, off, at), off * z.ss, len);
      assert forall a: nat, b: nat, i: nat :: SameByte(z.content, a, b, i);
      ZerosAreRight(z, off + z.Count(off), Next(z, off, at));
      ZerosAreRight(z, off + z.Count(off), Next(z, off, Next(z, off, at)));
    }
  }

  /** With every chunk rewritten, a byte is one that is further on, and those behind the end are zero. */
  lemma {:induction false} MustBeZero(z: SkipRun, i: nat)
    requires z.Valid() && |z.content| <= z.num * z.ss && AllRight(z, 0, 0)
    ensures ByteAt(z.content, i) == 0
    decreases |z.content| - i
  {
    if i < |z.content| {
      assert 0 * z.ss == 0;
      var k := FurtherOn(z, 0, 0, i);
      MustBeZero(z, k);
    }
  }

  lemma {:induction false} FurtherOn(z: SkipRun, off: nat, at: nat, i: nat) returns (k: nat)
    requires z.Valid() && off < z.num && AllRight(z, off, at) && off * z.ss <= at
    requires off * z.ss <= i < z.num * z.ss
    ensures i < k && ByteAt(z.content, i) == ByteAt(z.content, k)
    decreases z.num - off
  {
    hide SkipRun.Count, Padded, AllRight;
    var n := z.Count(off);
    var len := n * z.ss;
    Distribute(off, n, z.ss);
    RightHere(z, off, at);
    if i < off * z.ss + len {
      SameBytes(z.content, at + len, off * z.ss, len);
      k := at + len + (i - off * z.ss);
      assert SameByte(z.content, at + len, off * z.ss, i - off * z.ss);
      assert 0 < len by { Below(0, n, z.ss); }
      assert i == off * z.ss + (i - off * z.ss);
    } else {
      k := FurtherOn(z, off + n, at + len + len, i);
    }
  }

  lemma RightHere(z: SkipRun, off: nat, at: nat)
    requires z.Valid() && off < z.num && AllRight(z, off, at)
    ensures Padded(z.content, at + z.Count(off) * z.ss, z.Count(off) * z.ss)
         == Padded(z.content, off * z.ss, z.Count(off) * z.ss)
    ensures off + z.Count(off) <= z.num
    ensures AllRight(z, off + z.Count(off), at + z.Count(off) * z.ss + z.Count(off) * z.ss)
  {
    hide Padded, SkipRun.Count;
  }

  /** A member of one byte, blank flash, a programmer that takes no digest requests: zeros are stored in its place. */
  lemma OneByteLost(resolve: bytes -> nat, b: byte)
    requires b != 0
    ensures var z := SkipRun(resolve, [b], Entry(0, Text("0"), 0), 1, 512, _ => false);
            && PlainResult(ZipMember, z, map[]) == map[Addr(0, resolve(Text("0"))) := [b] + Zeros(511)]
            && SkipblockResult(ZipMember, z, map[]) == map[Addr(0, resolve(Text("0"))) := Zeros(512)]
  {
    hide Text;
    var z := SkipRun(resolve, [b], Entry(0, Text("0"), 0), 1, 512, _ => false);
    var a := Addr(0, resolve(Text("0")));
    assert Padded([b], 0, 512) == [b] + Zeros(511);
    assert Padded([b], 512, 512) == Zeros(512);
    OneSector(a, [b] + Zeros(511));
    OneSector(a, Zeros(512));
    assert z.Count(0) == 1;
    assert z.ZipChunks(z.Rewritten(map[], 0, 0), 1, 1024, 1) == z.Rewritten(map[], 0, 0);
  }

  lemma OneSector(a: Addr, data: bytes)
    requires |data| == 512
    ensures WriteSectors(map[], a.partition, a.sector, 512, data) == map[a := data]
  {
    assert data[..512] == data && data[512..] == [];
  }

  // ----- Both paths

  /** What makes skipblock end where plain programming does. */
  ghost predicate Agrees(kind: FileKind, z: SkipRun, flash: Flash)
    requires z.Valid()
  {
    && Addressable(z)
    && if kind == Posix then SameData(z) && NoChunkCollision(flash, z.resolve, z.content, z.e, z.num, z.ss, 0)
       else AllRight(z, 0, 0) && Safe(z, flash, 0, 0, 0)
  }

  /**
   * Both paths on the same file and flash: skipblock, whatever the device answers, ends where plain
   * programming does.
   */
  method ProgramBothWays(kind: FileKind, z: SkipRun, flash: Flash, maxPayload: nat) returns (plain: Flash, skip: Flash)
    requires Typed(z) && z.ss <= maxPayload && z.num + ChunkMax(z.ss) <= Numerals.UINT32_RANGE
    requires kind == Posix ==> NoChunkCollision(flash, z.resolve, z.content, z.e, z.num, z.ss, 0)
    ensures plain == PlainResult(kind, z, flash) && skip == SkipblockResult(kind, z, flash)
    ensures Agrees(kind, z, flash) ==> skip == plain
  {
    hide WriteSectors, Padded, Strtoul, WriteChunks, AllRight, SameData, Addressable, ReadsDecimals, Safe,
        NoChunkCollision,
         SkipRun.ZipChunks;
    var t := new Target(flash, z.resolve);
    var file := new QdlFile(z.content, kind, 4096);
    ProgramPlain(t, file, z.e, z.num, z.ss, maxPayload);
    plain := t.flash;
    t := new Target(flash, z.resolve);
    file := new QdlFile(z.content, kind, 4096);
    var _ := ProgramSkipblock(t, file, z.e, z.num, z.ss, maxPayload, z.replies);
    skip := t.flash;
    if Agrees(kind, z, flash) {
      if kind == Posix { SkipblockRefinesPlain(z); } else { RightAgrees(z, z, flash); }
    }
  }
}
