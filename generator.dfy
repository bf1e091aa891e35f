/** Composing identifiers from clock readings: `id128_t::gen()`,
    `id128_t::gen(siteID)` and the `Gen` function object.

    The clock readings (`clock::micros()` and `clock::ticks()`) are
    parameters here.  `gen(siteID)` puts the microseconds in `hi` and ORs
    `siteID << 48` into the tick count in `lo`; the tick count itself is not
    masked to 48 bits, so large tick counts run into the site field.
    `GenForSiteMasked` is the composition the header's layout describes;
    it agrees with `gen(siteID)` below 2^48 ticks. */
module Generator {
  import opened Words
  import opened Ids

  /** `id128_t::gen()`: the microseconds above the tick count. */
  function GenPlain(micros: u64, ticks: u64): (r: Id128)
    ensures Value(r) == micros * TWO64 + ticks
  {
    Id128(micros, ticks)
  }

  /** The two halves of `ticks | (site << 48)` on 64 bits: the low 48 bits
      are the ticks', and the high 16 bits are the site ORed with the tick
      bits above bit 47. */
  lemma SiteOrFields(site: u16, ticks: u64)
    ensures Bitwise(Or, ticks, site * TWO48, 64) < TWO64
    ensures Bitwise(Or, ticks, site * TWO48, 64) % TWO48 == ticks % TWO48
    ensures Bitwise(Or, ticks, site * TWO48, 64) / TWO48 == Bitwise(Or, ticks / TWO48, site, 16)
  {
    PowBits();
    var s := site * TWO48;
    DivModUnique(s, TWO48, site, 0);
    BitwiseSplit(Or, ticks, s, 64, 48);
    BitwiseLow(Or, ticks, s, 48);
    BitwiseZero(Or, ticks % TWO48, 48);
    DivModUnique(ticks % TWO48, TWO48, 0, ticks % TWO48);
  }

  /** `id128_t::gen(siteID)`: `hi` is the microseconds and `lo` is the tick
      count ORed with `siteID << 48`. */
  function GenForSite(siteID: u16, micros: u64, ticks: u64): (r: Id128)
    ensures r.hi == micros
    ensures r.lo % TWO48 == ticks % TWO48
    ensures r.lo / TWO48 == Bitwise(Or, ticks / TWO48, siteID, 16)
  {
    SiteOrFields(siteID, ticks);
    Id128(micros, Bitwise(Or, ticks, siteID * TWO48, 64))
  }

  /** While the tick count fits in 48 bits, `lo` is the site above the
      ticks: `lo >> 48 == siteID` and `lo & (2^48 - 1) == ticks`. */
  lemma GenDecode(siteID: u16, micros: u64, ticks: u64)
    requires ticks < TWO48
    ensures GenForSite(siteID, micros, ticks).lo / TWO48 == siteID
    ensures GenForSite(siteID, micros, ticks).lo % TWO48 == ticks
    ensures GenForSite(siteID, micros, ticks).lo == siteID * TWO48 + ticks
  {
    var r := GenForSite(siteID, micros, ticks);
    PowBits();
    DivModUnique(ticks, TWO48, 0, ticks);
    BitwiseZero(Or, siteID, 16);
    DivModUnique(siteID, TWO16, 0, siteID);
    DivModUnique(r.lo, TWO48, r.lo / TWO48, r.lo % TWO48);
  }

  /** Site zero adds nothing: `gen(0)` is `gen()`. */
  lemma GenSiteZero(micros: u64, ticks: u64)
    ensures GenForSite(0, micros, ticks) == GenPlain(micros, ticks)
  {
    PowBits();
    BitwiseZero(Or, ticks, 64);
    DivModUnique(ticks, TWO64, 0, ticks);
  }

  /** The demo's site 0xbeef reads back from `lo` while the tick count fits
      in 48 bits. */
  lemma DemoSiteDecodes(micros: u64, ticks: u64)
    requires ticks < TWO48
    ensures GenForSite(0xbeef, micros, ticks).lo / TWO48 == 0xbeef
  {
    GenDecode(0xbeef, micros, ticks);
  }

  /** At tick count `2^52` the demo's site reads back as 0xbeff: the
      unmasked ticks run into the site field. */
  lemma DemoSiteCorrupted(micros: u64, ticks: u64)
    requires ticks == 16 * TWO48
    ensures GenForSite(0xbeef, micros, ticks).lo / TWO48 == 0xbeff
  {
    DivModUnique(ticks, TWO48, 16, 0);
    PowBits();
    OrBit(0xbeef, 4, 16);
  }

  /** A tick count that is a whole multiple of 2^48 contributes only to
      the site field. */
  lemma GenAtTickMultiple(siteID: u16, micros: u64, ticks: u64, q: nat)
    requires ticks == q * TWO48
    ensures GenForSite(siteID, micros, ticks).lo == Bitwise(Or, q, siteID, 16) * TWO48
  {
    DivModUnique(ticks, TWO48, q, 0);
  }

  /** Two sites can produce the same identifier: site 0 at tick `t = 2^48`
      and site 1 at tick 0. */
  lemma SitesCollide(micros: u64, t: u64)
    requires t == TWO48
    ensures GenForSite(0, micros, t) == GenForSite(1, micros, 0)
  {
    GenAtTickMultiple(0, micros, t, 1);
    GenDecode(1, micros, 0);
    PowBits();
    BitwiseZero(Or, 1, 16);
    DivModUnique(1, TWO16, 0, 1);
  }

  /** While the tick count fits in 48 bits, different sites never produce
      the same identifier. */
  lemma SitesDisjoint(s1: u16, s2: u16, m1: u64, m2: u64, t1: u64, t2: u64)
    requires t1 < TWO48 && t2 < TWO48 && s1 != s2
    ensures GenForSite(s1, m1, t1) != GenForSite(s2, m2, t2)
  {
    GenDecode(s1, m1, t1);
    GenDecode(s2, m2, t2);
  }

  /** The ordering the header promises for one site: a later clock reading,
      with the tick count still below 2^48, gives a greater identifier. */
  lemma GenMonotonic(site: u16, m1: u64, t1: u64, m2: u64, t2: u64)
    requires m1 <= m2 && t1 < t2 < TWO48
    ensures Lt(GenForSite(site, m1, t1), GenForSite(site, m2, t2))
  {
    GenDecode(site, m1, t1);
    GenDecode(site, m2, t2);
  }

  /** Past 2^48 ticks the ordering fails: for site 2, tick `t2 = 2^49`
      gives a smaller identifier than tick `t1 = 2^48` in the same
      microsecond. */
  lemma OrderFailsPastTickRange(micros: u64, t1: u64, t2: u64)
    requires t1 == TWO48 && t2 == 2 * TWO48
    ensures Gt(GenForSite(2, micros, t1), GenForSite(2, micros, t2))
  {
    SiteTwoAtBit48(micros, t1);
    SiteTwoAtBit49(micros, t2);
  }

  lemma SiteTwoAtBit48(micros: u64, t: u64)
    requires t == TWO48
    ensures GenForSite(2, micros, t).lo == 3 * TWO48
  {
    GenAtTickMultiple(2, micros, t, 1);
    PowBits();
    OrBit(2, 0, 16);
  }

  lemma SiteTwoAtBit49(micros: u64, t: u64)
    requires t == 2 * TWO48
    ensures GenForSite(2, micros, t).lo == 2 * TWO48
  {
    GenAtTickMultiple(2, micros, t, 2);
    PowBits();
    OrSelf(2, 16);
    DivModUnique(2, TWO16, 0, 2);
  }

  // ---------------------------------------------------------------------------
  // The composition the header's layout describes: ticks masked to 48 bits
  // ---------------------------------------------------------------------------

  /** `(ticks & (2^48 - 1)) | (siteID << 48)`: the 16-bit site field above
      a 48-bit tick field, as the header comment lays the word out. */
  function GenForSiteMasked(siteID: u16, micros: u64, ticks: u64): (r: Id128)
    ensures r.hi == micros
    ensures r.lo / TWO48 == siteID && r.lo % TWO48 == ticks % TWO48
  {
    GenDecode(siteID, micros, ticks % TWO48);
    GenForSite(siteID, micros, ticks % TWO48)
  }

  /** With the mask, different sites never produce the same identifier,
      whatever the tick counts. */
  lemma MaskedSitesDisjoint(s1: u16, s2: u16, m1: u64, m2: u64, t1: u64, t2: u64)
    requires s1 != s2
    ensures GenForSiteMasked(s1, m1, t1) != GenForSiteMasked(s2, m2, t2)
  {
    var a, b := GenForSiteMasked(s1, m1, t1), GenForSiteMasked(s2, m2, t2);
    assert a.lo / TWO48 != b.lo / TWO48;
  }

  /** Below 2^48 ticks the mask changes nothing. */
  lemma MaskedAgrees(siteID: u16, micros: u64, ticks: u64)
    requires ticks < TWO48
    ensures GenForSiteMasked(siteID, micros, ticks) == GenForSite(siteID, micros, ticks)
  {
    DivModUnique(ticks, TWO48, 0, ticks);
  }

  /** The mask does not restore ordering past 2^48 ticks: ticks `t1 = 2^48`
      and `t2 = 2^49` in the same microsecond both leave a zero tick field,
      so one site gets the same identifier twice. */
  lemma MaskedTicksWrap(siteID: u16, micros: u64, t1: u64, t2: u64)
    requires t1 == TWO48 && t2 == 2 * TWO48
    ensures GenForSiteMasked(siteID, micros, t1) == GenForSiteMasked(siteID, micros, t2)
  {
    DivModUnique(t1, TWO48, 1, 0);
    DivModUnique(t2, TWO48, 2, 0);
  }

  // ---------------------------------------------------------------------------
  // The `Gen` function object
  // ---------------------------------------------------------------------------

  /** A clock reading: `clock::micros()` and `clock::ticks()`. */
  datatype Reading = Reading(micros: u64, ticks: u64)

  /** `Gen(site)`: `operator()` calls `gen(site_)`. */
  datatype Gen = Gen(site: u16)
  {
    function Call(now: Reading): (r: Id128)
      ensures r.hi == now.micros
      ensures r.lo % TWO48 == now.ticks % TWO48
      ensures r.lo / TWO48 == Bitwise(Or, now.ticks / TWO48, site, 16)
      ensures now.ticks < TWO48 ==> r.lo / TWO48 == site && r.lo % TWO48 == now.ticks
    {
      var r := GenForSite(site, now.micros, now.ticks);
      if now.ticks < TWO48 then
        GenDecode(site, now.micros, now.ticks);
        r
      else
        r
    }
  }

  /** Below 2^48 ticks, `Gen` objects for different sites never return the
      same identifier. */
  lemma CallSitesDisjoint(g1: Gen, g2: Gen, a: Reading, b: Reading)
    requires g1.site != g2.site && a.ticks < TWO48 && b.ticks < TWO48
    ensures g1.Call(a) != g2.Call(b)
  {
    SitesDisjoint(g1.site, g2.site, a.micros, b.micros, a.ticks, b.ticks);
  }

  /** Past that range they can: `Gen(0)` at tick `t = 2^48` returns what
      `Gen(1)` returns at tick 0 in the same microsecond. */
  lemma CallsCollide(micros: u64, t: u64)
    requires t == TWO48
    ensures Gen(0).Call(Reading(micros, t)) == Gen(1).Call(Reading(micros, 0))
  {
    SitesCollide(micros, t);
  }

  /** A `Gen` for a nonzero site returns an identifier above `min()` at any
      reading with ticks below 2^48. */
  lemma CallAboveMin(g: Gen, now: Reading)
    requires g.site != 0 && now.ticks < TWO48
    ensures Lt(Min(), g.Call(now))
  {
    var r := g.Call(now);
    DivModUnique(r.lo, TWO48, g.site, now.ticks);
  }

  /** A `Gen` called at a later reading, ticks below 2^48, gives a greater
      identifier. */
  lemma CallMonotonic(g: Gen, a: Reading, b: Reading)
    requires a.micros <= b.micros && a.ticks < b.ticks < TWO48
    ensures Lt(g.Call(a), g.Call(b))
  {
    GenMonotonic(g.site, a.micros, a.ticks, b.micros, b.ticks);
  }

  /** Successive readings as the demo loop takes them: microseconds never
      decrease and the tick count strictly increases, staying below 2^48. */
  predicate Advancing(rs: seq<Reading>) {
    (forall i :: 0 <= i < |rs| ==> rs[i].ticks < TWO48)
    && (forall i :: 0 < i < |rs| ==> rs[i - 1].micros <= rs[i].micros && rs[i - 1].ticks < rs[i].ticks)
  }

  /** The identifiers a `Gen` hands out for a run of readings. */
  function Generated(g: Gen, rs: seq<Reading>): (ids: seq<Id128>)
  {
    seq(|rs|, i requires 0 <= i < |rs| => g.Call(rs[i]))
  }

  /** Over advancing readings every identifier is greater than all earlier
      ones: the demo's "no collision, never less" check always passes. */
  lemma GeneratedIncreasing(g: Gen, rs: seq<Reading>)
    requires Advancing(rs)
    ensures forall i, j :: 0 <= i < j < |rs| ==> Lt(Generated(g, rs)[i], Generated(g, rs)[j])
  {
    var ids := Generated(g, rs);
    forall i | 0 < i < |ids| ensures Lt(ids[i - 1], ids[i]) {
      CallMonotonic(g, rs[i - 1], rs[i]);
    }
    ChainIncreasing(ids);
  }

  /** A run whose neighbours increase is increasing throughout. */
  lemma {:induction false} ChainIncreasing(ids: seq<Id128>)
    requires forall i :: 0 < i < |ids| ==> Lt(ids[i - 1], ids[i])
    ensures forall i, j :: 0 <= i < j < |ids| ==> Lt(ids[i], ids[j])
  {
    if |ids| > 1 {
      var n := |ids| - 1;
      var init := ids[..n];
      ChainIncreasing(init);
      forall i | 0 <= i < n ensures Lt(ids[i], ids[n]) {
        if i < n - 1 {
          assert Lt(init[i], init[n - 1]);
        }
      }
    }
  }

  /** The demo's loop: `prev` starts at `id128_t()` and then holds the last
      identifier.  A `Gen` for a nonzero site (the demo's is 0xabcd) over
      advancing readings always returns one greater than `prev`, so neither
      the collision check nor the "less" check fires. */
  lemma LoopChecksPass(g: Gen, rs: seq<Reading>)
    requires Advancing(rs) && g.site != 0
    ensures |rs| > 0 ==> Lt(Min(), Generated(g, rs)[0])
    ensures forall i :: 0 < i < |rs| ==> Lt(Generated(g, rs)[i - 1], Generated(g, rs)[i])
  {
    GeneratedIncreasing(g, rs);
    if |rs| > 0 {
      CallAboveMin(g, rs[0]);
    }
  }
}
