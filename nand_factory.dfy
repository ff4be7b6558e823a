/** The factory that assembles a disk from a write-policy token and a collector token: it
    picks the two strategies, builds the class name, and makes a disk with the default
    geometry and timings. */
module NandFactory {
  import opened NandCommon
  import opened GarbageCollectorInterface
  import GarbageCollectorSimple
  import opened DiskModel
  import opened NandDisk

  // write-policy tokens
  const WritePolicyDefaultToken: string := "WP_DEFAULT"
  const WritePolicyInPlaceToken: string := "WP_IP"
  const WritePolicyInPlaceNoEraseToken: string := "WP_IP_NE"

  // garbage-collector tokens
  const GarbageCollectorNoneToken: string := "GC_NONE"
  const GarbageCollectorSimpleToken: string := "GC_SIMPLE"

  datatype WritePolicy = WritePolicyDefault | WritePolicyInPlace | WritePolicyInPlaceNoErase

  datatype GcKind = GcNone | GcSimple

  /** What get_class assembles: the class name and the two strategies mixed in. */
  datatype DiskClass = DiskClass(name: string, writePolicy: WritePolicy, gc: GcKind)

  function WritePolicyToken(wp: WritePolicy): string
  {
    match wp
    case WritePolicyDefault => WritePolicyDefaultToken
    case WritePolicyInPlace => WritePolicyInPlaceToken
    case WritePolicyInPlaceNoErase => WritePolicyInPlaceNoEraseToken
  }

  function GcToken(gc: GcKind): string
  {
    match gc
    case GcNone => GarbageCollectorNoneToken
    case GcSimple => GarbageCollectorSimpleToken
  }

  function WritePolicySuffix(wp: WritePolicy): string
  {
    match wp
    case WritePolicyDefault => ""
    case WritePolicyInPlace => "WPIP"
    case WritePolicyInPlaceNoErase => "WPIPNE"
  }

  function GcSuffix(gc: GcKind): string
  {
    if gc == GcSimple then "GCS" else ""
  }

  /** The class name: "NANDDisk", then the write-policy suffix, then the collector suffix. */
  function ClassName(wp: WritePolicy, gc: GcKind): string
  {
    "NANDDisk" + WritePolicySuffix(wp) + GcSuffix(gc)
  }

  /** get_class. The write-policy token is checked first, so a pair of bad tokens reports
      the write policy. */
  function GetClass(writepolicy: string, garbagecollector: string): (r: Result<DiskClass, string>)
    ensures writepolicy !in {WritePolicyDefaultToken, WritePolicyInPlaceToken, WritePolicyInPlaceNoEraseToken}
            ==> r == Failure("Invalid write policy")
    ensures writepolicy in {WritePolicyDefaultToken, WritePolicyInPlaceToken, WritePolicyInPlaceNoEraseToken}
            && garbagecollector !in {GarbageCollectorNoneToken, GarbageCollectorSimpleToken}
            ==> r == Failure("Invalid garbage collector")
    ensures r.Success? ==>
              && WritePolicyToken(r.value.writePolicy) == writepolicy
              && GcToken(r.value.gc) == garbagecollector
              && r.value.name == ClassName(r.value.writePolicy, r.value.gc)
  {
    var (wp, wpSuffix) :=
      if writepolicy == WritePolicyInPlaceToken then (Some(WritePolicyInPlace), "WPIP")
      else if writepolicy == WritePolicyInPlaceNoEraseToken then (Some(WritePolicyInPlaceNoErase), "WPIPNE")
      else if writepolicy != WritePolicyDefaultToken then (None, "")
      else (Some(WritePolicyDefault), "");
    if wp.None? then Failure("Invalid write policy")
    else
      var (gc, gcSuffix) :=
        if garbagecollector == GarbageCollectorSimpleToken then (Some(GcSimple), "GCS")
        else if garbagecollector != GarbageCollectorNoneToken then (None, "")
        else (Some(GcNone), "");
      if gc.None? then Failure("Invalid garbage collector")
      else Success(DiskClass("NANDDisk" + wpSuffix + gcSuffix, wp.value, gc.value))
  }

  /** Every pair of valid tokens is accepted and selects exactly the strategies they name. */
  lemma GetClassAcceptsTokens(wp: WritePolicy, gc: GcKind)
    ensures GetClass(WritePolicyToken(wp), GcToken(gc)) == Success(DiskClass(ClassName(wp, gc), wp, gc))
  {
    assert WritePolicyToken(wp) in {WritePolicyDefaultToken, WritePolicyInPlaceToken, WritePolicyInPlaceNoEraseToken};
    assert GcToken(gc) in {GarbageCollectorNoneToken, GarbageCollectorSimpleToken};
  }

  /** Reads a class name back as the strategies it was built from. */
  function ParseClassName(name: string): Option<(WritePolicy, GcKind)>
  {
    if |name| < 8 || name[..8] != "NANDDisk" then None
    else
      var rest := name[8..];
      var (body, gc) :=
        if |rest| >= 3 && rest[|rest| - 3..] == "GCS" then (rest[..|rest| - 3], GcSimple) else (rest, GcNone);
      if body == "" then Some((WritePolicyDefault, gc))
      else if body == "WPIP" then Some((WritePolicyInPlace, gc))
      else if body == "WPIPNE" then Some((WritePolicyInPlaceNoErase, gc))
      else None
  }

  /** A class name determines the strategies: different selections get different names. */
  lemma ClassNameRoundTrip(wp: WritePolicy, gc: GcKind)
    ensures ParseClassName(ClassName(wp, gc)) == Some((wp, gc))
  {
    var name := ClassName(wp, gc);
    var w := WritePolicySuffix(wp);
    var g := GcSuffix(gc);
    assert name[..8] == "NANDDisk";
    var rest := name[8..];
    assert rest == w + g;
    if gc == GcSimple {
      assert rest[|rest| - 3..] == "GCS";
      assert rest[..|rest| - 3] == w;
    } else {
      assert rest == w;
      assert |w| < 3 || w[|w| - 3..] != "GCS" by {
        if |w| >= 3 {
          assert w[|w| - 1] != 'S';
        }
      }
    }
  }

  lemma ClassNameInjective(wp1: WritePolicy, gc1: GcKind, wp2: WritePolicy, gc2: GcKind)
    requires ClassName(wp1, gc1) == ClassName(wp2, gc2)
    ensures wp1 == wp2 && gc1 == gc2
  {
    ClassNameRoundTrip(wp1, gc1);
    ClassNameRoundTrip(wp2, gc2);
  }

  /** The default write policy, whose source is not part of this model, taken as never
      finding room in a full block. */
  const DefaultWritePolicy: (nat, nat) -> bool := (block: nat, page: nat) => false

  /** The collector a GcKind stands for, with the simple collector's constructor defaults. */
  function CollectorOf(gc: GcKind): (r: Collector)
    ensures gc == GcNone <==> r == GarbageCollectorNone
    ensures gc == GcSimple ==>
              r == GarbageCollectorSimple(GarbageCollectorSimple.DefaultMinTime, GarbageCollectorSimple.DefaultDirtiness)
  {
    match gc
    case GcNone => GarbageCollectorNone
    case GcSimple => GarbageCollectorSimple(GarbageCollectorSimple.DefaultMinTime, GarbageCollectorSimple.DefaultDirtiness)
  }

  /** get_instance: a disk of the class get_class assembles, constructed with no arguments,
      so with the defaults 256 blocks of 128 pages of 4096 bytes and 40/20/1500 microseconds
      to write a page, read a page and erase a block. The full-block behaviour of the two
      in-place policies is supplied by the caller. */
  method GetInstance(writepolicy: string, garbagecollector: string,
                     inPlacePolicy: (nat, nat) -> bool, inPlaceNoErasePolicy: (nat, nat) -> bool)
    returns (r: Result<NandDisk, string>)
    ensures r.Failure? ==> GetClass(writepolicy, garbagecollector) == Failure(r.error)
    ensures r.Success? ==>
              && GetClass(writepolicy, garbagecollector).Success?
              && var cls := GetClass(writepolicy, garbagecollector).value;
                 && fresh(r.value)
                 && r.value.Valid()
                 && r.value.State() == Initial(r.value.Cfg())
                 && r.value.totalBlocks == 256 && r.value.pagesPerBlock == 128 && r.value.pageSize == 4096
                 && r.value.writePageTime == 40 && r.value.readPageTime == 20 && r.value.eraseBlockTime == 1500
                 && r.value.collector == CollectorOf(cls.gc)
                 && r.value.fullBlockWritePolicy
                    == (match cls.writePolicy
                        case WritePolicyDefault => DefaultWritePolicy
                        case WritePolicyInPlace => inPlacePolicy
                        case WritePolicyInPlaceNoErase => inPlaceNoErasePolicy)
    ensures GetClass(writepolicy, garbagecollector).Success? ==> r.Success?
  {
    var cls := GetClass(writepolicy, garbagecollector);
    if cls.Failure? {
      return Failure(cls.error);
    }
    var policy := match cls.value.writePolicy
      case WritePolicyDefault => DefaultWritePolicy
      case WritePolicyInPlace => inPlacePolicy
      case WritePolicyInPlaceNoErase => inPlaceNoErasePolicy;
    var disk := new NandDisk(256, 128, 4096, 40, 20, 1500, CollectorOf(cls.value.gc), policy);
    return Success(disk);
  }
}
