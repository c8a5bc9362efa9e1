/**
 * The RSA compatibility layer of lib/crypto/crypto_compat.c: moving RSA
 * parameters (the RSAPrivateKey fields of section 3.2 of RFC 8017) in and
 * out of a key object, checking its size, and generating a key, over two
 * generations of the library.
 *
 * BIGNUMs are identified by allocation handles; the library's arithmetic is
 * not modelled.  The outcome of each library call that can fail is an input.
 */
module RsaCompat {
  import opened Wrappers

  /**
   * The library generation fixed at build time: `Legacy` when
   * OPENSSL_VERSION_NUMBER < 0x10100000L (key fields are assigned directly),
   * `Modern` otherwise (the RSA_set0_* and RSA_get0_* accessors).
   */
  datatype Mode = Legacy | Modern

  const KeyBytes: nat := 256
  const ModulusBits: nat := 2048
  const PublicExponent: nat := 65537

  // ---------------------------------------------------------------------
  // crypto_compat_RSA_valid_size
  // ---------------------------------------------------------------------

  /**
   * `rsaSize` is RSA_size(rsa); the modulus length is read with
   * BN_num_bits(rsa->n) (`nNumBits`) in Legacy mode and with RSA_bits(rsa)
   * (`rsaBits`) in Modern mode.
   */
  function ValidSize(mode: Mode, rsaSize: nat, rsaBits: nat, nNumBits: nat): (ok: bool)
    ensures ok ==> rsaSize == KeyBytes
    ensures ok ==> 8 * rsaSize == (if mode == Legacy then nNumBits else rsaBits)
  {
    rsaSize == KeyBytes &&
    match mode
    case Legacy => nNumBits == ModulusBits
    case Modern => rsaBits == ModulusBits
  }

  /**
   * Both modes accept exactly the keys whose size is 256 bytes and whose
   * modulus has 2048 bits, when the two ways of reading the modulus length
   * agree; one bit more or less is refused.
   */
  lemma ValidSizeModesAgree(mode: Mode, rsaSize: nat, bits: nat)
    ensures ValidSize(mode, rsaSize, bits, bits) <==> rsaSize == 256 && bits == 2048
    ensures ValidSize(Legacy, rsaSize, bits, bits) == ValidSize(Modern, rsaSize, bits, bits)
    ensures !ValidSize(mode, 256, 2047, 2047) && !ValidSize(mode, 256, 2049, 2049)
  {
  }

  // ---------------------------------------------------------------------
  // Parameters and the key object
  // ---------------------------------------------------------------------

  /** The handle of one BIGNUM allocation. */
  type BigNum = nat

  /** The eight parameter slots of an RSA key. */
  datatype Slot = N | E | D | P | Q | Dmp1 | Dmq1 | Iqmp

  /** The slots in the order in which import hands them over and frees them. */
  const Slots: seq<Slot> := [N, E, D, P, Q, Dmp1, Dmq1, Iqmp]

  predicate IsPublic(s: Slot) {
    s == N || s == E
  }

  /**
   * The Modern-mode call that hands a slot to the key: 1 for RSA_set0_key,
   * 2 for RSA_set0_factors, 3 for RSA_set0_crt_params.
   */
  function StageOf(s: Slot): nat {
    match s
    case N | E | D => 1
    case P | Q => 2
    case Dmp1 | Dmq1 | Iqmp => 3
  }

  /** Eight nullable BIGNUM pointers, as passed to import or returned by export. */
  datatype Params = Params(
    n: Option<BigNum>, e: Option<BigNum>, d: Option<BigNum>,
    p: Option<BigNum>, q: Option<BigNum>,
    dmp1: Option<BigNum>, dmq1: Option<BigNum>, iqmp: Option<BigNum>)
  {
    function Get(s: Slot): Option<BigNum> {
      match s
      case N => n
      case E => e
      case D => d
      case P => p
      case Q => q
      case Dmp1 => dmp1
      case Dmq1 => dmq1
      case Iqmp => iqmp
    }

    /** The assertions of import: n and e given, the private six all given or all null. */
    predicate WellFormed() {
      n.Some? && e.Some? &&
      (d.None? ==> p.None? && q.None? && dmp1.None? && dmq1.None? && iqmp.None?) &&
      (d.Some? ==> p.Some? && q.Some? && dmp1.Some? && dmq1.Some? && iqmp.Some?)
    }
  }

  const NoParams: Params := Params(None, None, None, None, None, None, None, None)

  /** An RSA key object; each field holds the BIGNUM the key owns in that slot. */
  class RsaKey {
    var n: Option<BigNum>
    var e: Option<BigNum>
    var d: Option<BigNum>
    var p: Option<BigNum>
    var q: Option<BigNum>
    var dmp1: Option<BigNum>
    var dmq1: Option<BigNum>
    var iqmp: Option<BigNum>

    /** RSA_new: an empty key. */
    constructor ()
      ensures forall s :: Get(s) == None
    {
      n, e, d, p, q, dmp1, dmq1, iqmp := None, None, None, None, None, None, None, None;
    }

    function Get(s: Slot): Option<BigNum>
      reads this
    {
      match s
      case N => n
      case E => e
      case D => d
      case P => p
      case Q => q
      case Dmp1 => dmp1
      case Dmq1 => dmq1
      case Iqmp => iqmp
    }

    /**
     * RSA_set0_key: returns 1 and takes the non-null arguments when the
     * library accepts them, returns 0 and takes nothing otherwise.
     */
    method Set0Key(n': Option<BigNum>, e': Option<BigNum>, d': Option<BigNum>, accepted: bool)
      returns (r: int)
      modifies this
      ensures r == if accepted then 1 else 0
      ensures n == (if accepted && n'.Some? then n' else old(n))
      ensures e == (if accepted && e'.Some? then e' else old(e))
      ensures d == (if accepted && d'.Some? then d' else old(d))
      ensures p == old(p) && q == old(q)
      ensures dmp1 == old(dmp1) && dmq1 == old(dmq1) && iqmp == old(iqmp)
    {
      if accepted {
        if n'.Some? { n := n'; }
        if e'.Some? { e := e'; }
        if d'.Some? { d := d'; }
        r := 1;
      } else {
        r := 0;
      }
    }

    /** RSA_set0_factors, in the same manner as Set0Key. */
    method Set0Factors(p': Option<BigNum>, q': Option<BigNum>, accepted: bool) returns (r: int)
      modifies this
      ensures r == if accepted then 1 else 0
      ensures p == (if accepted && p'.Some? then p' else old(p))
      ensures q == (if accepted && q'.Some? then q' else old(q))
      ensures n == old(n) && e == old(e) && d == old(d)
      ensures dmp1 == old(dmp1) && dmq1 == old(dmq1) && iqmp == old(iqmp)
    {
      if accepted {
        if p'.Some? { p := p'; }
        if q'.Some? { q := q'; }
        r := 1;
      } else {
        r := 0;
      }
    }

    /** RSA_set0_crt_params, in the same manner as Set0Key. */
    method Set0CrtParams(dmp1': Option<BigNum>, dmq1': Option<BigNum>, iqmp': Option<BigNum>,
                         accepted: bool) returns (r: int)
      modifies this
      ensures r == if accepted then 1 else 0
      ensures dmp1 == (if accepted && dmp1'.Some? then dmp1' else old(dmp1))
      ensures dmq1 == (if accepted && dmq1'.Some? then dmq1' else old(dmq1))
      ensures iqmp == (if accepted && iqmp'.Some? then iqmp' else old(iqmp))
      ensures n == old(n) && e == old(e) && d == old(d) && p == old(p) && q == old(q)
    {
      if accepted {
        if dmp1'.Some? { dmp1 := dmp1'; }
        if dmq1'.Some? { dmq1 := dmq1'; }
        if iqmp'.Some? { iqmp := iqmp'; }
        r := 1;
      } else {
        r := 0;
      }
    }
  }

  // ---------------------------------------------------------------------
  // crypto_compat_RSA_import
  // ---------------------------------------------------------------------

  /** Whether the library accepts each of the three RSA_set0_* calls. */
  datatype StageResults = StageResults(setKey: bool, setFactors: bool, setCrtParams: bool)

  /**
   * One BN_free (`cleared` false) or BN_clear_free (`cleared` true) of the
   * BIGNUM passed for `slot`.
   */
  datatype Release = Release(slot: Slot, bn: BigNum, cleared: bool)

  /** The number of stages whose parameters end up owned by the key. */
  function StagesCommitted(mode: Mode, params: Params, lib: StageResults): (c: nat)
    ensures c <= 3
    ensures c == 3 <==> mode == Legacy || (lib.setKey && (params.d.None? || (lib.setFactors && lib.setCrtParams)))
  {
    if mode == Legacy then 3
    else if !lib.setKey then 0
    else if params.d.None? then 3
    else if !lib.setFactors then 1
    else if !lib.setCrtParams then 2
    else 3
  }

  /** The key owns the parameter given for `s` once the stage of `s` is committed. */
  predicate Owned(params: Params, s: Slot, committed: nat) {
    params.Get(s).Some? && StageOf(s) <= committed
  }

  /**
   * The releases that follow when only `committed` stages went through:
   * every non-null parameter of a later stage, in slot order, the private
   * ones with BN_clear_free.
   */
  function Releases(params: Params, committed: nat): seq<Release> {
    PendingRelease(params, N, committed) + PendingRelease(params, E, committed) +
    PendingRelease(params, D, committed) + PendingRelease(params, P, committed) +
    PendingRelease(params, Q, committed) + PendingRelease(params, Dmp1, committed) +
    PendingRelease(params, Dmq1, committed) + PendingRelease(params, Iqmp, committed)
  }

  /** The release of the parameter of `s`, unless the key owns it or it is null. */
  function PendingRelease(params: Params, s: Slot, committed: nat): seq<Release> {
    if Owned(params, s, committed) then [] else Free(s, params.Get(s), !IsPublic(s))
  }

  /** BN_free / BN_clear_free of a nullable pointer: nothing happens for NULL. */
  function Free(s: Slot, x: Option<BigNum>, cleared: bool): seq<Release> {
    if x.Some? then [Release(s, x.value, cleared)] else []
  }

  /**
   * crypto_compat_RSA_import: hands the parameters to `key`; on failure
   * frees exactly those not yet handed over, never the key itself.
   */
  method Import(key: RsaKey, mode: Mode, params: Params, lib: StageResults)
    returns (status: int, released: seq<Release>)
    requires params.WellFormed()
    modifies key
    ensures status == (if StagesCommitted(mode, params, lib) == 3 then 0 else -1)
    ensures released == Releases(params, StagesCommitted(mode, params, lib))
    ensures forall s ::
      key.Get(s) == if Owned(params, s, StagesCommitted(mode, params, lib)) then params.Get(s) else old(key.Get(s))
  {
    // 0 on success; otherwise the label jumped to: 3 for err3, 2 for err2, 1 for err1
    var failedAt := 0;
    if mode == Legacy {
      key.n := params.n;
      key.e := params.e;
      if params.d.Some? {
        key.d := params.d;
        key.p := params.p;
        key.q := params.q;
        key.dmp1 := params.dmp1;
        key.dmq1 := params.dmq1;
        key.iqmp := params.iqmp;
      }
    } else if params.d.None? {
      var r := key.Set0Key(params.n, params.e, None, lib.setKey);
      if r != 1 { failedAt := 3; }
    } else {
      var r := key.Set0Key(params.n, params.e, params.d, lib.setKey);
      if r != 1 {
        failedAt := 3;
      } else {
        r := key.Set0Factors(params.p, params.q, lib.setFactors);
        if r != 1 {
          failedAt := 2;
        } else {
          r := key.Set0CrtParams(params.dmp1, params.dmq1, params.iqmp, lib.setCrtParams);
          if r != 1 { failedAt := 1; }
        }
      }
    }
    ghost var c := StagesCommitted(mode, params, lib);
    assert failedAt == if c == 3 then 0 else 3 - c;
    forall s ensures key.Get(s) == if Owned(params, s, c) then params.Get(s) else old(key.Get(s)) {
      match s
      case N => assert key.n == if Owned(params, N, c) then params.n else old(key.n);
      case E => assert key.e == if Owned(params, E, c) then params.e else old(key.e);
      case D => assert key.d == if Owned(params, D, c) then params.d else old(key.d);
      case P => assert key.p == if Owned(params, P, c) then params.p else old(key.p);
      case Q => assert key.q == if Owned(params, Q, c) then params.q else old(key.q);
      case Dmp1 => assert key.dmp1 == if Owned(params, Dmp1, c) then params.dmp1 else old(key.dmp1);
      case Dmq1 => assert key.dmq1 == if Owned(params, Dmq1, c) then params.dmq1 else old(key.dmq1);
      case Iqmp => assert key.iqmp == if Owned(params, Iqmp, c) then params.iqmp else old(key.iqmp);
    }
    if failedAt == 0 {
      return 0, [];
    }
    released := Rollback(params, failedAt);
    status := -1;
  }

  /**
   * The fall-through cleanup of import, entered at `err3` (`entry` 3),
   * `err2` (2) or `err1` (1): frees the parameters of stage `4 - entry`
   * onwards, the private ones with BN_clear_free.
   */
  method Rollback(params: Params, entry: nat) returns (released: seq<Release>)
    requires 1 <= entry <= 3
    ensures released == Releases(params, 3 - entry)
  {
    ghost var c := 3 - entry;
    released := [];
    if entry == 3 {
      // err3:
      assert Free(N, params.n, false) == PendingRelease(params, N, c);
      assert Free(E, params.e, false) == PendingRelease(params, E, c);
      assert Free(D, params.d, true) == PendingRelease(params, D, c);
      released := released + Free(N, params.n, false) + Free(E, params.e, false) + Free(D, params.d, true);
    } else {
      assert PendingRelease(params, N, c) == PendingRelease(params, E, c) == PendingRelease(params, D, c) == [];
    }
    assert released == PendingRelease(params, N, c) + PendingRelease(params, E, c) + PendingRelease(params, D, c);
    if entry >= 2 {
      // err2:
      assert Free(P, params.p, true) == PendingRelease(params, P, c);
      assert Free(Q, params.q, true) == PendingRelease(params, Q, c);
      released := released + Free(P, params.p, true) + Free(Q, params.q, true);
    } else {
      assert PendingRelease(params, P, c) == PendingRelease(params, Q, c) == [];
    }
    assert released == PendingRelease(params, N, c) + PendingRelease(params, E, c) + PendingRelease(params, D, c) +
      PendingRelease(params, P, c) + PendingRelease(params, Q, c);
    // err1:
    assert Free(Dmp1, params.dmp1, true) == PendingRelease(params, Dmp1, c);
    assert Free(Dmq1, params.dmq1, true) == PendingRelease(params, Dmq1, c);
    assert Free(Iqmp, params.iqmp, true) == PendingRelease(params, Iqmp, c);
    released := released + Free(Dmp1, params.dmp1, true) + Free(Dmq1, params.dmq1, true) +
                Free(Iqmp, params.iqmp, true);
  }

  /** The slots whose parameters `rs` frees, in order. */
  function ReleasedSlots(rs: seq<Release>): seq<Slot> {
    if rs == [] then [] else [rs[0].slot] + ReleasedSlots(rs[1..])
  }

  /** How many releases free the parameter of `s`. */
  function ReleaseCount(rs: seq<Release>, s: Slot): nat {
    multiset(ReleasedSlots(rs))[s]
  }

  /** `[s]` when the parameter of `s` is released, `[]` otherwise. */
  function PendingSlot(params: Params, s: Slot, committed: nat): seq<Slot> {
    if params.Get(s).Some? && !Owned(params, s, committed) then [s] else []
  }

  lemma {:induction false} ReleasedSlotsAppend(a: seq<Release>, b: seq<Release>)
    ensures ReleasedSlots(a + b) == ReleasedSlots(a) + ReleasedSlots(b)
  {
    if a != [] {
      assert (a + b)[0] == a[0];
      assert (a + b)[1..] == a[1..] + b;
      ReleasedSlotsAppend(a[1..], b);
    } else {
      assert a + b == b;
    }
  }

  /** Import frees, in slot order, exactly the non-null parameters the key does not own. */
  lemma ReleasedSlotsOfReleases(params: Params, committed: nat)
    ensures ReleasedSlots(Releases(params, committed)) ==
      PendingSlot(params, N, committed) + PendingSlot(params, E, committed) +
      PendingSlot(params, D, committed) + PendingSlot(params, P, committed) +
      PendingSlot(params, Q, committed) + PendingSlot(params, Dmp1, committed) +
      PendingSlot(params, Dmq1, committed) + PendingSlot(params, Iqmp, committed)
  {
    var acc := PendingRelease(params, N, committed);
    var slots := PendingSlot(params, N, committed);
    assert ReleasedSlots(acc) == slots;
    acc, slots := AppendPending(params, committed, acc, slots, E);
    acc, slots := AppendPending(params, committed, acc, slots, D);
    acc, slots := AppendPending(params, committed, acc, slots, P);
    acc, slots := AppendPending(params, committed, acc, slots, Q);
    acc, slots := AppendPending(params, committed, acc, slots, Dmp1);
    acc, slots := AppendPending(params, committed, acc, slots, Dmq1);
    acc, slots := AppendPending(params, committed, acc, slots, Iqmp);
  }

  lemma AppendPending(params: Params, committed: nat, acc: seq<Release>, slots: seq<Slot>, s: Slot)
    returns (acc': seq<Release>, slots': seq<Slot>)
    requires ReleasedSlots(acc) == slots
    ensures acc' == acc + PendingRelease(params, s, committed)
    ensures slots' == slots + PendingSlot(params, s, committed)
    ensures ReleasedSlots(acc') == slots'
  {
    acc' := acc + PendingRelease(params, s, committed);
    slots' := slots + PendingSlot(params, s, committed);
    ReleasedSlotsAppend(acc, PendingRelease(params, s, committed));
    assert ReleasedSlots(PendingRelease(params, s, committed)) == PendingSlot(params, s, committed) by {
      assert ReleasedSlots([]) == [];
    }
  }

  /**
   * Whatever the mode and whichever library call fails, each parameter
   * given to import is either owned by the key or freed exactly once,
   * never both and never neither; a null parameter is never freed.
   */
  lemma OwnershipPartition(mode: Mode, params: Params, lib: StageResults, s: Slot)
    requires params.WellFormed()
    ensures var c := StagesCommitted(mode, params, lib);
      var count := ReleaseCount(Releases(params, c), s);
      if params.Get(s).Some? then (Owned(params, s, c) && count == 0) || (!Owned(params, s, c) && count == 1)
      else count == 0
  {
    ReleaseCountOfReleases(params, StagesCommitted(mode, params, lib), s);
  }

  /** The releases free the parameter of `s` once if it is non-null and not owned, else never. */
  lemma ReleaseCountOfReleases(params: Params, c: nat, s: Slot)
    ensures ReleaseCount(Releases(params, c), s) ==
      if params.Get(s).Some? && !Owned(params, s, c) then 1 else 0
  {
    var acc := CountStep(params, c, s, [], N);
    assert acc == PendingRelease(params, N, c);
    acc := CountStep(params, c, s, acc, E);
    acc := CountStep(params, c, s, acc, D);
    acc := CountStep(params, c, s, acc, P);
    acc := CountStep(params, c, s, acc, Q);
    acc := CountStep(params, c, s, acc, Dmp1);
    acc := CountStep(params, c, s, acc, Dmq1);
    acc := CountStep(params, c, s, acc, Iqmp);
  }

  /** The position of a slot in `Slots`. */
  function SlotIndex(s: Slot): (k: nat)
    ensures k < |Slots| && Slots[k] == s
  {
    match s
    case N => 0
    case E => 1
    case D => 2
    case P => 3
    case Q => 4
    case Dmp1 => 5
    case Dmq1 => 6
    case Iqmp => 7
  }

  /**
   * Appending the release of slot `t` to the releases of the slots before
   * it keeps the count of `s` at one if `s` is pending and among them, zero otherwise.
   */
  lemma CountStep(params: Params, c: nat, s: Slot, acc: seq<Release>, t: Slot) returns (acc': seq<Release>)
    requires ReleaseCount(acc, s) ==
      if SlotIndex(s) < SlotIndex(t) && params.Get(s).Some? && !Owned(params, s, c) then 1 else 0
    ensures acc' == acc + PendingRelease(params, t, c)
    ensures ReleaseCount(acc', s) ==
      if SlotIndex(s) <= SlotIndex(t) && params.Get(s).Some? && !Owned(params, s, c) then 1 else 0
  {
    var piece := PendingRelease(params, t, c);
    acc' := acc + piece;
    ReleasedSlotsAppend(acc, piece);
    assert ReleaseCount(acc', s) == ReleaseCount(acc, s) + ReleaseCount(piece, s);
    PieceCount(params, t, c, s);
    assert SlotIndex(s) == SlotIndex(t) ==> s == t;
  }

  lemma PieceCount(params: Params, t: Slot, c: nat, s: Slot)
    ensures ReleaseCount(PendingRelease(params, t, c), s) ==
      if t == s && params.Get(s).Some? && !Owned(params, s, c) then 1 else 0
  {
    assert ReleasedSlots([]) == [];
    assert ReleasedSlots(PendingRelease(params, t, c)) == PendingSlot(params, t, c);
  }

  /**
   * The staged rollback: Legacy mode never fails; in Modern mode a refused
   * RSA_set0_key frees every given parameter, a refused RSA_set0_factors
   * frees p, q, dmp1, dmq1, iqmp, a refused RSA_set0_crt_params frees
   * dmp1, dmq1, iqmp.
   */
  lemma ImportRollback(mode: Mode, params: Params, lib: StageResults)
    requires params.WellFormed()
    ensures var rs := Releases(params, StagesCommitted(mode, params, lib));
      && (mode == Legacy ==> rs == [])
      && (mode == Modern && !lib.setKey ==>
            ReleasedSlots(rs) == if params.d.Some? then Slots else [N, E])
      && (mode == Modern && params.d.Some? && lib.setKey && !lib.setFactors ==>
            ReleasedSlots(rs) == [P, Q, Dmp1, Dmq1, Iqmp])
      && (mode == Modern && params.d.Some? && lib.setKey && lib.setFactors && !lib.setCrtParams ==>
            ReleasedSlots(rs) == [Dmp1, Dmq1, Iqmp])
  {
    ReleasedSlotsOfReleases(params, StagesCommitted(mode, params, lib));
  }

  // ---------------------------------------------------------------------
  // Frees counted per BIGNUM
  // ---------------------------------------------------------------------

  /** No BIGNUM is passed for two slots. */
  predicate Distinct(params: Params) {
    forall s, t :: params.Get(s).Some? && params.Get(s) == params.Get(t) ==> s == t
  }

  /** The BIGNUMs that `rs` frees, in order. */
  function FreedHandles(rs: seq<Release>): seq<BigNum> {
    if rs == [] then [] else [rs[0].bn] + FreedHandles(rs[1..])
  }

  /** How many releases free the BIGNUM `h`. */
  function FreeCount(rs: seq<Release>, h: BigNum): nat {
    multiset(FreedHandles(rs))[h]
  }

  /** Each release frees the BIGNUM that was given for its slot. */
  lemma ReleasesFreeGivenHandles(params: Params, c: nat)
    ensures forall r :: r in Releases(params, c) ==> params.Get(r.slot) == Some(r.bn)
  {
    PieceFreesGivenHandle(params, N, c);
    PieceFreesGivenHandle(params, E, c);
    PieceFreesGivenHandle(params, D, c);
    PieceFreesGivenHandle(params, P, c);
    PieceFreesGivenHandle(params, Q, c);
    PieceFreesGivenHandle(params, Dmp1, c);
    PieceFreesGivenHandle(params, Dmq1, c);
    PieceFreesGivenHandle(params, Iqmp, c);
  }

  lemma PieceFreesGivenHandle(params: Params, t: Slot, c: nat)
    ensures forall r :: r in PendingRelease(params, t, c) ==> r.slot == t && params.Get(t) == Some(r.bn)
  {
  }

  /** When exactly the releases of slot `s` free `h`, `h` is freed as often as `s` is released. */
  lemma {:induction false} HandleCountIsSlotCount(rs: seq<Release>, s: Slot, h: BigNum)
    requires forall k :: 0 <= k < |rs| ==> (rs[k].bn == h <==> rs[k].slot == s)
    ensures FreeCount(rs, h) == ReleaseCount(rs, s)
  {
    if rs != [] {
      var rest := rs[1..];
      assert forall k :: 0 <= k < |rest| ==> rest[k] == rs[k + 1];
      HandleCountIsSlotCount(rest, s, h);
      CountsOfFirst(rs, s, h);
    }
  }

  /** The first release adds one to the count of its slot and one to the count of its BIGNUM. */
  lemma CountsOfFirst(rs: seq<Release>, s: Slot, h: BigNum)
    requires rs != []
    ensures ReleaseCount(rs, s) == ReleaseCount(rs[1..], s) + (if rs[0].slot == s then 1 else 0)
    ensures FreeCount(rs, h) == FreeCount(rs[1..], h) + (if rs[0].bn == h then 1 else 0)
  {
    assert ReleasedSlots(rs) == [rs[0].slot] + ReleasedSlots(rs[1..]);
    assert FreedHandles(rs) == [rs[0].bn] + FreedHandles(rs[1..]);
  }

  /** A BIGNUM given for no slot is never freed. */
  lemma {:induction false} UngivenHandleNeverFreed(rs: seq<Release>, params: Params, h: BigNum)
    requires forall r :: r in rs ==> params.Get(r.slot) == Some(r.bn)
    requires forall s :: params.Get(s) != Some(h)
    ensures FreeCount(rs, h) == 0
  {
    if rs != [] {
      assert rs[0] in rs;
      assert forall r :: r in rs[1..] ==> r in rs;
      UngivenHandleNeverFreed(rs[1..], params, h);
      assert multiset(FreedHandles(rs)) == multiset{rs[0].bn} + multiset(FreedHandles(rs[1..]));
    }
  }

  /**
   * When no BIGNUM is passed twice, import frees each BIGNUM at most once,
   * never one the key ends up holding, and every given one the key does not
   * hold.
   */
  lemma NoDoubleFree(mode: Mode, params: Params, lib: StageResults, h: BigNum)
    requires params.WellFormed() && Distinct(params)
    ensures var c := StagesCommitted(mode, params, lib);
      var k := FreeCount(Releases(params, c), h);
      && k <= 1
      && (forall s :: params.Get(s) == Some(h) && Owned(params, s, c) ==> k == 0)
      && (forall s :: params.Get(s) == Some(h) && !Owned(params, s, c) ==> k == 1)
  {
    var c := StagesCommitted(mode, params, lib);
    var rs := Releases(params, c);
    ReleasesFreeGivenHandles(params, c);
    if s :| params.Get(s) == Some(h) {
      forall k | 0 <= k < |rs| ensures rs[k].bn == h <==> rs[k].slot == s {
        assert rs[k] in rs;
      }
      HandleCountIsSlotCount(rs, s, h);
      OwnershipPartition(mode, params, lib, s);
    } else {
      UngivenHandleNeverFreed(rs, params, h);
    }
  }

  /** Passing one BIGNUM as both n and e gets it freed twice when RSA_set0_key is refused. */
  lemma AliasedArgumentsFreedTwice()
    ensures var params := Params(Some(5), Some(5), None, None, None, None, None, None);
      FreeCount(Releases(params, StagesCommitted(Modern, params, StageResults(false, false, false))), 5) == 2
  {
    var params := Params(Some(5), Some(5), None, None, None, None, None, None);
    var rs := Releases(params, 0);
    assert rs == [Release(N, 5, false), Release(E, 5, false)];
    assert rs[1..][1..] == [];
    assert FreedHandles(rs[1..]) == [5];
    assert FreedHandles(rs) == [5, 5];
  }

  // ---------------------------------------------------------------------
  // crypto_compat_RSA_export
  // ---------------------------------------------------------------------

  /**
   * crypto_compat_RSA_export: views of n and e, and of the private six when
   * `wantPrivate` (a non-null d out-pointer).  When `wantPrivate` is false the
   * private views are `None` because they are not written; when it is true
   * they are the key's slots as they stand, `None` being a written NULL.
   * The key is not changed and nothing is freed.
   */
  method Export(key: RsaKey, mode: Mode, wantPrivate: bool) returns (status: int, views: Params)
    ensures status == 0
    ensures views.n == key.n && views.e == key.e
    ensures forall s :: !IsPublic(s) ==> views.Get(s) == if wantPrivate then key.Get(s) else None
  {
    views := NoParams;
    if mode == Legacy {
      views := views.(n := key.n, e := key.e);
      if wantPrivate {
        views := views.(d := key.d, p := key.p, q := key.q,
                        dmp1 := key.dmp1, dmq1 := key.dmq1, iqmp := key.iqmp);
      }
    } else if !wantPrivate {
      // RSA_get0_key(key, n, e, NULL)
      views := views.(n := key.n, e := key.e);
    } else {
      // RSA_get0_key, RSA_get0_factors, RSA_get0_crt_params
      views := views.(n := key.n, e := key.e, d := key.d);
      views := views.(p := key.p, q := key.q);
      views := views.(dmp1 := key.dmp1, dmq1 := key.dmq1, iqmp := key.iqmp);
    }
    status := 0;
  }

  /**
   * Importing into a fresh key and exporting again gives back the same
   * parameters whenever import succeeds, which it always does in Legacy mode.
   */
  method ImportExportRoundTrip(mode: Mode, params: Params, lib: StageResults)
    returns (status: int, released: seq<Release>, views: Params)
    requires params.WellFormed()
    ensures mode == Legacy ==> status == 0
    ensures status == 0 ==> released == [] && views == params
  {
    var key := new RsaKey();
    status, released := Import(key, mode, params, lib);
    views := NoParams;
    if status == 0 {
      var _, v := Export(key, mode, params.d.Some?);
      views := v;
      assert views.Get(D) == params.Get(D) && views.Get(P) == params.Get(P);
      assert views.Get(Q) == params.Get(Q) && views.Get(Dmp1) == params.Get(Dmp1);
      assert views.Get(Dmq1) == params.Get(Dmq1) && views.Get(Iqmp) == params.Get(Iqmp);
    }
  }

  // ---------------------------------------------------------------------
  // crypto_compat_RSA_generate_key
  // ---------------------------------------------------------------------

  /**
   * The key-generation interface: `OneShot` is RSA_generate_key, used when
   * OPENSSL_VERSION_NUMBER < 0x00908000L; `Stepwise` is BN_new, RSA_new and
   * RSA_generate_key_ex.
   */
  datatype KeygenApi = OneShot | Stepwise

  /** Whether each allocating or generating library call succeeds. */
  datatype KeygenResults = KeygenResults(bnNew: bool, rsaNew: bool, generated: bool)

  /** A library call made by generate_key, with its outcome where it has one. */
  datatype Call =
    | BnNew(ok: bool)
    | BnSetWord(word: nat)
    | RsaNew(ok: bool)
    | RsaGenerateKey(bits: nat, exponent: nat, ok: bool)
    | RsaGenerateKeyEx(bits: nat, exponent: nat, ok: bool)
    | BnFree
    | RsaFree

  /** The two allocations generate_key can hold: the exponent BIGNUM and the key. */
  datatype Resource = Exponent | Key

  function Acquires(c: Call): Option<Resource> {
    match c
    case BnNew(ok) => if ok then Some(Exponent) else None
    case RsaNew(ok) => if ok then Some(Key) else None
    case RsaGenerateKey(_, _, ok) => if ok then Some(Key) else None
    case _ => None
  }

  function Frees(c: Call): Option<Resource> {
    match c
    case BnFree => Some(Exponent)
    case RsaFree => Some(Key)
    case _ => None
  }

  /** What is held after call `c`, given what was held before it. */
  function After(held: set<Resource>, c: Call): set<Resource> {
    (if Acquires(c).Some? then held + {Acquires(c).value} else held) -
    (if Frees(c).Some? then {Frees(c).value} else {})
  }

  /** Call `c` frees only what is held and allocates nothing already held. */
  predicate Fits(held: set<Resource>, c: Call) {
    (Acquires(c).Some? ==> Acquires(c).value !in held) &&
    (Frees(c).Some? ==> Frees(c).value in held)
  }

  /** The allocations still held after `calls`. */
  ghost function Live(calls: seq<Call>): set<Resource> {
    if calls == [] then {} else After(Live(calls[..|calls| - 1]), calls[|calls| - 1])
  }

  /** No call frees what is not held (no double free), and none allocates over what is held. */
  ghost predicate Balanced(calls: seq<Call>) {
    calls == [] ||
    (Balanced(calls[..|calls| - 1]) && Fits(Live(calls[..|calls| - 1]), calls[|calls| - 1]))
  }

  lemma Snoc(calls: seq<Call>, c: Call)
    ensures Live(calls + [c]) == After(Live(calls), c)
    ensures Balanced(calls + [c]) <==> Balanced(calls) && Fits(Live(calls), c)
  {
    assert (calls + [c])[..|calls|] == calls;
  }

  predicate IsGeneration(c: Call) {
    c.RsaGenerateKey? || c.RsaGenerateKeyEx?
  }

  /** Every generation request in `calls` asks for 2048 bits and exponent 65537. */
  ghost predicate RequestsStandardKey(calls: seq<Call>) {
    forall i :: 0 <= i < |calls| && IsGeneration(calls[i]) ==>
      calls[i].bits == ModulusBits && calls[i].exponent == PublicExponent
  }

  /** Some generation request in `calls` succeeded. */
  ghost predicate Generated(calls: seq<Call>) {
    exists i :: 0 <= i < |calls| && IsGeneration(calls[i]) && calls[i].ok
  }

  /**
   * crypto_compat_RSA_generate_key: asks for 2048 bits and exponent 65537;
   * returns a key only when generation succeeded, and then holds nothing
   * else; on failure frees all it allocated.
   */
  method GenerateKey(api: KeygenApi, lib: KeygenResults) returns (key: Option<RsaKey>, calls: seq<Call>)
    ensures key.Some? <==> lib.generated && (api == Stepwise ==> lib.bnNew && lib.rsaNew)
    ensures Balanced(calls)
    ensures Live(calls) == if key.Some? then {Key} else {}
    ensures RequestsStandardKey(calls)
    ensures key.Some? ==> Generated(calls)
  {
    if api == OneShot {
      key, calls := GenerateKeyOneShot(lib.generated);
    } else {
      key, calls := GenerateKeyStepwise(lib);
    }
  }

  /** The RSA_generate_key branch: one call that yields a key or NULL. */
  method GenerateKeyOneShot(generated: bool) returns (key: Option<RsaKey>, calls: seq<Call>)
    ensures key.Some? <==> generated
    ensures Balanced(calls)
    ensures Live(calls) == if key.Some? then {Key} else {}
    ensures RequestsStandardKey(calls)
    ensures key.Some? ==> Generated(calls)
  {
    calls := Record([], RsaGenerateKey(ModulusBits, PublicExponent, generated));
    if !generated {
      return None, calls;
    }
    var k := new RsaKey();
    assert IsGeneration(calls[0]) && calls[0].ok;
    return Some(k), calls;
  }

  /**
   * The BN_new / RSA_new / RSA_generate_key_ex branch, with its cleanup
   * chain err2 (RSA_free) then err1 (BN_free).
   */
  method GenerateKeyStepwise(lib: KeygenResults) returns (key: Option<RsaKey>, calls: seq<Call>)
    ensures key.Some? <==> lib.bnNew && lib.rsaNew && lib.generated
    ensures Balanced(calls)
    ensures Live(calls) == if key.Some? then {Key} else {}
    ensures RequestsStandardKey(calls)
    ensures key.Some? ==> Generated(calls)
  {
    // Set up parameter.
    calls := Record([], BnNew(lib.bnNew));
    if !lib.bnNew {
      return None, calls;
    }
    calls := Record(calls, BnSetWord(PublicExponent));
    var exponent := PublicExponent;

    // Generate key.
    calls := Record(calls, RsaNew(lib.rsaNew));
    if !lib.rsaNew {
      calls := Record(calls, BnFree);
      return None, calls;
    }
    var k := new RsaKey();
    calls := Record(calls, RsaGenerateKeyEx(ModulusBits, exponent, lib.generated));
    ghost var at := |calls| - 1;
    if !lib.generated {
      calls := Record(calls, RsaFree);
      calls := Record(calls, BnFree);
      return None, calls;
    }

    // Clean up.
    calls := Record(calls, BnFree);
    assert IsGeneration(calls[at]) && calls[at].ok;
    return Some(k), calls;
  }

  /** Appends call `c` to the record of library calls. */
  method Record(calls: seq<Call>, c: Call) returns (calls': seq<Call>)
    ensures calls' == calls + [c]
    ensures Live(calls') == After(Live(calls), c)
    ensures Balanced(calls') <==> Balanced(calls) && Fits(Live(calls), c)
  {
    Snoc(calls, c);
    calls' := calls + [c];
  }
}
