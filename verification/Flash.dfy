/** Flash storage: sectors of bytes, addressed by physical partition and sector number. */
module Flash {
  import opened Bytes

  datatype Addr = Addr(partition: int, sector: nat)

  type Flash = map<Addr, bytes>

  /** Store whole sectors, one after the other. */
  function WriteSectors(flash: Flash, p: int, start: nat, ss: nat, data: bytes): Flash
    requires 0 < ss
    decreases |data|
  {
    if |data| < ss then flash
    else WriteSectors(flash[Addr(p, start) := data[..ss]], p, start + 1, ss, data[ss..])
  }

  /** The region's sectors are all there. */
  predicate Covers(flash: Flash, p: int, start: nat, num: nat, ss: nat) {
    forall k :: start <= k < start + num ==> Addr(p, k) in flash && |flash[Addr(p, k)]| == ss
  }

  /** The contents of a region. */
  function Region(flash: Flash, p: int, start: nat, num: nat, ss: nat): (r: bytes)
    requires Covers(flash, p, start, num, ss)
    ensures |r| == num * ss
    decreases num
  {
    if num == 0 then []
    else flash[Addr(p, start)] + Region(flash, p, start + 1, num - 1, ss)
  }

  /** A write touches the sectors it names and no others. */
  lemma {:induction false} WriteSectorsOutside(flash: Flash, p: int, start: nat, ss: nat, data: bytes, num: nat,
                                               a: Addr)
    requires 0 < ss && |data| == num * ss
    requires !(a.partition == p && start <= a.sector < start + num)
    ensures var f := WriteSectors(flash, p, start, ss, data);
            (a in f <==> a in flash) && (a in flash ==> f[a] == flash[a])
    decreases num
  {
    if num > 0 {
      assert num * ss == (num - 1) * ss + ss;
      WriteSectorsOutside(flash[Addr(p, start) := data[..ss]], p, start + 1, ss, data[ss..], num - 1, a);
    }
  }

  /** Each sector named receives its share of the data. */
  lemma {:induction false} WriteSectorsInside(flash: Flash, p: int, start: nat, ss: nat, data: bytes, num: nat, k: nat)
    requires 0 < ss && |data| == num * ss && k < num
    ensures 0 <= k * ss <= k * ss + ss <= |data|
    ensures var f := WriteSectors(flash, p, start, ss, data);
            Addr(p, start + k) in f && f[Addr(p, start + k)] == data[k * ss..k * ss + ss]
    decreases num
  {
    assert num * ss == (num - 1) * ss + ss;
    var flash' := flash[Addr(p, start) := data[..ss]];
    if k == 0 {
      WriteSectorsOutside(flash', p, start + 1, ss, data[ss..], num - 1, Addr(p, start));
    } else {
      assert k * ss == (k - 1) * ss + ss;
      WriteSectorsInside(flash', p, start + 1, ss, data[ss..], num - 1, k - 1);
      SliceOfSlice(data, ss, |data|, (k - 1) * ss, (k - 1) * ss + ss);
    }
  }

  /** Writing in two goes is writing at once. */
  lemma {:induction false} WriteSectorsAppend(flash: Flash, p: int, start: nat, ss: nat, a: bytes, n: nat, b: bytes)
    requires 0 < ss && |a| == n * ss
    ensures WriteSectors(flash, p, start, ss, a + b)
         == WriteSectors(WriteSectors(flash, p, start, ss, a), p, start + n, ss, b)
    decreases n
  {
    if n == 0 {
      assert a + b == b;
    } else {
      assert n * ss == (n - 1) * ss + ss;
      assert (a + b)[..ss] == a[..ss] && (a + b)[ss..] == a[ss..] + b;
      WriteSectorsAppend(flash[Addr(p, start) := a[..ss]], p, start + 1, ss, a[ss..], n - 1, b);
    }
  }

  /** Writing what is already there changes nothing. */
  lemma {:induction false} RewriteIsNoop(flash: Flash, p: int, start: nat, num: nat, ss: nat)
    requires 0 < ss && Covers(flash, p, start, num, ss)
    ensures WriteSectors(flash, p, start, ss, Region(flash, p, start, num, ss)) == flash
    decreases num
  {
    if num > 0 {
      var r := Region(flash, p, start, num, ss);
      assert num * ss == (num - 1) * ss + ss;
      assert r[..ss] == flash[Addr(p, start)];
      assert r[ss..] == Region(flash, p, start + 1, num - 1, ss);
      assert flash[Addr(p, start) := r[..ss]] == flash;
      RewriteIsNoop(flash, p, start + 1, num - 1, ss);
    }
  }

  /** A region's contents depend on its own sectors only. */
  lemma {:induction false} RegionUnchanged(f: Flash, g: Flash, p: int, start: nat, num: nat, ss: nat)
    requires Covers(f, p, start, num, ss)
    requires forall k :: start <= k < start + num ==> Addr(p, k) in g && g[Addr(p, k)] == f[Addr(p, k)]
    ensures Covers(g, p, start, num, ss)
    ensures Region(g, p, start, num, ss) == Region(f, p, start, num, ss)
    decreases num
  {
    if num > 0 { RegionUnchanged(f, g, p, start + 1, num - 1, ss); }
  }
}
