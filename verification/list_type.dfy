/** The ten list variants: five base ineligibility categories and the five
    delist variants that reverse them, with the fixed pairing between them. */
module ListTypes {
  import opened Wrappers

  datatype ListType =
    | Str | Cr | MultipleAccount | Fdm | Sst
    | DStr | DCr | DMultipleAccount | DFdm | DSst
  {
    /** The upload code of the variant; it is spelled like the constant name. */
    function Code(): string {
      match this
      case Str => "STR"
      case Cr => "CR"
      case MultipleAccount => "MULTIPLE_ACCOUNT"
      case Fdm => "FDM"
      case Sst => "SST"
      case DStr => "D_STR"
      case DCr => "D_CR"
      case DMultipleAccount => "D_MULTIPLE_ACCOUNT"
      case DFdm => "D_FDM"
      case DSst => "D_SST"
    }

    /** Declaration position of the constant (its enum ordinal). */
    function Ordinal(): nat {
      match this
      case Str => 0
      case Cr => 1
      case MultipleAccount => 2
      case Fdm => 3
      case Sst => 4
      case DStr => 5
      case DCr => 6
      case DMultipleAccount => 7
      case DFdm => 8
      case DSst => 9
    }

    predicate IsDelist() {
      this in {DStr, DCr, DMultipleAccount, DFdm, DSst}
    }

    /** The delist variant that reverses a base category; `None` for a delist. */
    function DelistType(): Option<ListType> {
      match this
      case Str => Some(DStr)
      case Cr => Some(DCr)
      case MultipleAccount => Some(DMultipleAccount)
      case Fdm => Some(DFdm)
      case Sst => Some(DSst)
      case _ => None
    }

    /** The base category a delist variant reverses; `None` for a base category. */
    function IneligibilityType(): Option<ListType> {
      match this
      case DStr => Some(Str)
      case DCr => Some(Cr)
      case DMultipleAccount => Some(MultipleAccount)
      case DFdm => Some(Fdm)
      case DSst => Some(Sst)
      case _ => None
    }
  }

  /** Every variant, in declaration order (`ListType.values()`). */
  const AllListTypes: seq<ListType> :=
    [Str, Cr, MultipleAccount, Fdm, Sst, DStr, DCr, DMultipleAccount, DFdm, DSst]

  /** The base categories in the order the evaluator walks them. */
  const BaseOrder: seq<ListType> := [Str, Cr, MultipleAccount, Fdm, Sst]

  /** The paired delist of a base category. */
  function DelistOf(b: ListType): (d: ListType)
    requires !b.IsDelist()
    ensures d.IsDelist()
    ensures d.IneligibilityType() == Some(b)
  {
    b.DelistType().value
  }

  /** The paired base of a delist variant. */
  function BaseOf(d: ListType): (b: ListType)
    requires d.IsDelist()
    ensures !b.IsDelist()
    ensures b.DelistType() == Some(d)
  {
    d.IneligibilityType().value
  }

  /** There are exactly ten variants, listed once each in declaration order;
      the first five are the base categories and the last five the delists. */
  lemma VariantsEnumerated()
    ensures |AllListTypes| == 10
    ensures forall v: ListType :: v in AllListTypes
    ensures forall i, j :: 0 <= i < j < |AllListTypes| ==> AllListTypes[i] != AllListTypes[j]
    ensures forall i :: 0 <= i < |AllListTypes| ==> AllListTypes[i].Ordinal() == i
    ensures forall i :: 0 <= i < |AllListTypes| ==> (AllListTypes[i].IsDelist() <==> i >= 5)
    ensures BaseOrder == AllListTypes[..5]
  {
    forall v: ListType ensures v in AllListTypes {
      assert AllListTypes[v.Ordinal()] == v;
    }
  }

  /** The evaluator's walk visits every base category, in declaration order. */
  lemma BaseOrderComplete()
    ensures forall b: ListType :: b in BaseOrder <==> !b.IsDelist()
    ensures forall i, j :: 0 <= i < j < |BaseOrder| ==> BaseOrder[i].Ordinal() < BaseOrder[j].Ordinal()
  {
    forall b: ListType | !b.IsDelist() ensures b in BaseOrder {
      assert BaseOrder[b.Ordinal()] == b;
    }
  }

  /** `getDelistType` is defined exactly on the base categories and lands in
      the delists; `getIneligibilityType` is defined exactly on the delists
      and lands in the base categories. */
  lemma PairingDomains(v: ListType)
    ensures v.DelistType().Some? <==> !v.IsDelist()
    ensures v.IneligibilityType().Some? <==> v.IsDelist()
    ensures v.DelistType().Some? ==> v.DelistType().value.IsDelist()
    ensures v.IneligibilityType().Some? ==> !v.IneligibilityType().value.IsDelist()
  {
  }

  /** The pairing round-trips in both directions. */
  lemma PairingRoundTrip(v: ListType)
    ensures !v.IsDelist() ==> v.DelistType().value.IneligibilityType() == Some(v)
    ensures v.IsDelist() ==> v.IneligibilityType().value.DelistType() == Some(v)
  {
  }

  /** The pairing is a bijection between the five base categories and the five
      delist variants: injective on each side and onto the other side. */
  lemma PairingBijective()
    ensures forall b1: ListType, b2: ListType ::
      !b1.IsDelist() && !b2.IsDelist() && b1.DelistType() == b2.DelistType() ==> b1 == b2
    ensures forall d1: ListType, d2: ListType ::
      d1.IsDelist() && d2.IsDelist() && d1.IneligibilityType() == d2.IneligibilityType() ==> d1 == d2
    ensures forall d: ListType :: d.IsDelist() ==> exists b: ListType :: !b.IsDelist() && b.DelistType() == Some(d)
    ensures forall b: ListType :: !b.IsDelist() ==> exists d: ListType :: d.IsDelist() && d.IneligibilityType() == Some(b)
  {
    forall b1: ListType, b2: ListType | !b1.IsDelist() && !b2.IsDelist() && b1.DelistType() == b2.DelistType()
      ensures b1 == b2
    {
      PairingRoundTrip(b1);
      PairingRoundTrip(b2);
    }
    forall d1: ListType, d2: ListType | d1.IsDelist() && d2.IsDelist() && d1.IneligibilityType() == d2.IneligibilityType()
      ensures d1 == d2
    {
      PairingRoundTrip(d1);
      PairingRoundTrip(d2);
    }
    forall d: ListType | d.IsDelist()
      ensures exists b: ListType :: !b.IsDelist() && b.DelistType() == Some(d)
    {
      var b := BaseOf(d);
    }
    forall b: ListType | !b.IsDelist()
      ensures exists d: ListType :: d.IsDelist() && d.IneligibilityType() == Some(b)
    {
      var d := DelistOf(b);
    }
  }

  /** Codes are pairwise distinct, so a code names one variant. */
  lemma CodesDistinct(u: ListType, v: ListType)
    ensures u.Code() == v.Code() ==> u == v
  {
  }
}
