/**
 * Tag domains and the GenericTag wrapper: a mutable holder of one constant
 * of an enum that implements Tag (FoodGroup or FoodFreshness), with
 * equality, hashing, ordering and a case-insensitive reverse lookup from
 * display names.
 */
module Tags {
  import opened Results
  import opened JavaText

  /** An enum implementing Tag: its constants in declaration order, the
      text getDisplayName gives, the text Enum.toString gives, and the
      enum's simple class name (used in the lookup error message). */
  datatype TagDomain<!T> = TagDomain(
    constants: seq<T>,
    displayName: T -> string,
    asString: T -> string,
    simpleName: string)

  /** Constant j of the domain has display name s, ignoring case. */
  predicate DisplayedAs<T>(domain: TagDomain<T>, j: int, s: string)
    requires 0 <= j < |domain.constants|
  {
    EqualsIgnoreCase(domain.displayName(domain.constants[j]), s)
  }

  /** No two constants have display names equal ignoring case. */
  predicate DistinctDisplayNames<T>(domain: TagDomain<T>)
  {
    forall i, j :: 0 <= i < j < |domain.constants| ==>
      !EqualsIgnoreCase(domain.displayName(domain.constants[i]), domain.displayName(domain.constants[j]))
  }

  /** The position of the first constant from position i on whose display
      name is s ignoring case. */
  function FirstMatch<T>(domain: TagDomain<T>, s: string, i: nat): (r: Option<nat>)
    requires i <= |domain.constants|
    ensures r.Some? ==> i <= r.value < |domain.constants| && DisplayedAs(domain, r.value, s)
    ensures r.Some? ==> forall j :: i <= j < r.value ==> !DisplayedAs(domain, j, s)
    ensures r.None? ==> forall j :: i <= j < |domain.constants| ==> !DisplayedAs(domain, j, s)
    decreases |domain.constants| - i
  {
    if i == |domain.constants| then None
    else if DisplayedAs(domain, i, s) then Some(i)
    else FirstMatch(domain, s, i + 1)
  }

  /** The message of the IllegalArgumentException fromString throws. */
  function UnknownTagMessage<T>(domain: TagDomain<T>, s: string): string
  {
    "No enum constant with display name " + s + " found in " + domain.simpleName
  }

  /** What GenericTag.fromString wraps: the first constant in declaration
      order whose display name equals s ignoring case; when there is none,
      the IllegalArgumentException it throws (never a null). */
  function Lookup<T>(domain: TagDomain<T>, s: string): (r: Result<T>)
    ensures r.Ok? ==> exists j :: 0 <= j < |domain.constants| && domain.constants[j] == r.value
                                  && DisplayedAs(domain, j, s)
                                  && forall k :: 0 <= k < j ==> !DisplayedAs(domain, k, s)
    ensures r.Err? <==> forall j :: 0 <= j < |domain.constants| ==> !DisplayedAs(domain, j, s)
    ensures r.Err? ==> r.message == UnknownTagMessage(domain, s)
  {
    match FirstMatch(domain, s, 0)
    case Some(j) => Ok(domain.constants[j])
    case None => Err(UnknownTagMessage(domain, s))
  }

  /** Reverse lookup of a constant's own display name finds that constant,
      provided the display names are distinct ignoring case. */
  lemma LookupDisplayName<T>(domain: TagDomain<T>, k: nat)
    requires DistinctDisplayNames(domain)
    requires k < |domain.constants|
    ensures Lookup(domain, domain.displayName(domain.constants[k])) == Ok(domain.constants[k])
  {
    var s := domain.displayName(domain.constants[k]);
    EqualsIgnoreCaseIsEquivalence(s, s, s);
    assert DisplayedAs(domain, k, s);
    var r := FirstMatch(domain, s, 0);
    assert r.Some?;
    var j := r.value;
    if j < k {
      assert false;
    }
  }

  /** Two tag wrappers of one domain compare by String.compareTo of the
      first one's Enum.toString text against the second one's display name. */
  function CompareTags<T>(domain: TagDomain<T>, a: T, b: T): (r: int)
    ensures r == 0 <==> domain.asString(a) == domain.displayName(b)
  {
    CompareStrings(domain.asString(a), domain.displayName(b))
  }

  class GenericTag<T(==)> {
    const domain: TagDomain<T>
    /** The wrapped constant; None stands for null. */
    var tag: Option<T>

    /** new GenericTag(T tag): wraps the given constant, which may be null. */
    constructor (domain: TagDomain<T>, tag: Option<T>)
      ensures this.domain == domain && this.tag == tag
    {
      this.domain := domain;
      this.tag := tag;
    }

    /** new GenericTag(GenericTag<T> other): a new wrapper of the same
        constant, equal to the original. */
    constructor Copy(other: GenericTag<T>)
      ensures domain == other.domain && tag == other.tag
      ensures Equals(other) && other.Equals(this)
    {
      domain := other.domain;
      tag := other.GetTag();
    }

    /** setTag(T): overwrites the wrapped constant, null included. */
    method SetTag(newValue: Option<T>)
      modifies this
      ensures tag == newValue
    {
      tag := newValue;
    }

    /** setTag(GenericTag<T>): takes over the other wrapper's constant,
        unless that wrapper or its constant is null. */
    method SetTagFrom(newValue: GenericTag?<T>)
      modifies this
      ensures newValue != null && newValue.tag.Some? ==> tag == newValue.tag
      ensures newValue == null || newValue.tag.None? ==> tag == old(tag)
    {
      if newValue != null && newValue.GetTag().Some? {
        tag := newValue.GetTag();
      }
    }

    function GetTag(): Option<T>
      reads this
    {
      tag
    }

    /** toString: the display name of the wrapped constant (a null constant
        throws a NullPointerException). */
    function ToString(): string
      reads this
      requires tag.Some?
    {
      domain.displayName(tag.value)
    }

    /** equals: the same object, or another wrapper of an equal constant. */
    predicate Equals(o: GenericTag?<T>)
      reads this, o
      ensures Equals(o) <==> o != null && tag == o.tag
    {
      if this == o then true
      else if o == null then false
      else tag == o.tag
    }

    /** hashCode: Objects.hash(tag), that is 31 plus the constant's own
        hash code (0 for null) in 32-bit arithmetic. */
    function HashCode(constantHash: T -> int): (h: int)
      reads this
      ensures IsInt32(h)
      ensures tag.None? ==> h == 31
    {
      Wrap32(31 + match tag case None => 0 case Some(v) => constantHash(v))
    }

    /** compareTo: the wrapped constant's Enum.toString text against the
        other wrapper's display name. */
    function CompareTo(o: GenericTag<T>): int
      reads this, o
      requires tag.Some? && o.tag.Some?
    {
      CompareTags(domain, tag.value, o.tag.value)
    }

    /** GenericTag.fromString: searches the constants in declaration order
        and wraps the first whose display name equals displayName ignoring
        case; throws an IllegalArgumentException when none does. */
    static method FromString(domain: TagDomain<T>, displayName: string) returns (r: Result<GenericTag<T>>)
      ensures r.Ok? <==> Lookup(domain, displayName).Ok?
      ensures r.Ok? ==> fresh(r.value) && r.value.domain == domain
                        && r.value.tag == Some(Lookup(domain, displayName).value)
      ensures r.Err? ==> r.message == Lookup(domain, displayName).message
    {
      var i := 0;
      while i < |domain.constants|
        invariant 0 <= i <= |domain.constants|
        invariant FirstMatch(domain, displayName, i) == FirstMatch(domain, displayName, 0)
      {
        var c := domain.constants[i];
        if EqualsIgnoreCase(domain.displayName(c), displayName) {
          var t := new GenericTag(domain, Some(c));
          return Ok(t);
        }
        i := i + 1;
      }
      return Err(UnknownTagMessage(domain, displayName));
    }
  }

  /** Equal wrappers have equal hash codes. */
  lemma EqualsHashCode<T>(a: GenericTag<T>, b: GenericTag<T>, constantHash: T -> int)
    requires a.Equals(b)
    ensures a.HashCode(constantHash) == b.HashCode(constantHash)
  {
  }

  /** Round trip: fromString(E, new GenericTag(v).toString()) equals the
      wrapper of v, whenever E's display names are distinct ignoring case. */
  method FromStringOfToString<T>(t: GenericTag<T>) returns (u: Result<GenericTag<T>>)
    requires DistinctDisplayNames(t.domain)
    requires t.tag.Some? && t.tag.value in t.domain.constants
    ensures u.Ok? && u.value.Equals(t) && t.Equals(u.value)
  {
    var k :| 0 <= k < |t.domain.constants| && t.domain.constants[k] == t.tag.value;
    LookupDisplayName(t.domain, k);
    u := GenericTag<T>.FromString(t.domain, t.ToString());
  }

  /** When Enum.toString gives the display name and display names are
      distinct, compareTo is antisymmetric and is zero exactly between
      equal wrappers. */
  lemma CompareToWhenToStringIsDisplayName<T>(a: GenericTag<T>, b: GenericTag<T>)
    requires a.domain == b.domain
    requires a.tag.Some? && b.tag.Some?
    requires a.tag.value in a.domain.constants && b.tag.value in a.domain.constants
    requires DistinctDisplayNames(a.domain)
    requires a.domain.asString(a.tag.value) == a.domain.displayName(a.tag.value)
    requires a.domain.asString(b.tag.value) == a.domain.displayName(b.tag.value)
    ensures b.CompareTo(a) == -a.CompareTo(b)
    ensures a.CompareTo(b) == 0 <==> a.Equals(b)
  {
    var d := a.domain;
    CompareStringsAntisymmetric(d.displayName(a.tag.value), d.displayName(b.tag.value));
    if a.CompareTo(b) == 0 && a.tag != b.tag {
      var i :| 0 <= i < |d.constants| && d.constants[i] == a.tag.value;
      var j :| 0 <= j < |d.constants| && d.constants[j] == b.tag.value;
      EqualsIgnoreCaseIsEquivalence(d.displayName(a.tag.value), d.displayName(a.tag.value), d.displayName(a.tag.value));
      assert false;
    }
  }

  /** When a constant's Enum.toString text differs from its display name,
      a wrapper of it compares unequal to itself although it equals itself. */
  lemma CompareToInconsistentWithEquals<T>(a: GenericTag<T>)
    requires a.tag.Some?
    requires a.domain.asString(a.tag.value) != a.domain.displayName(a.tag.value)
    ensures a.Equals(a) && a.CompareTo(a) != 0
  {
  }

  // ---------------------------------------------------------------------
  // FoodFreshness
  // ---------------------------------------------------------------------

  datatype FoodFreshness = Fresh | NearExpiry | Expired

  /** The labels the store writes for each state; the enum's display names
      and constant names are taken to be these. */
  function FreshnessLabel(f: FoodFreshness): string
  {
    match f
    case Fresh => "Fresh"
    case NearExpiry => "Near_Expiry"
    case Expired => "Expired"
  }

  const FreshnessDomain: TagDomain<FoodFreshness> :=
    TagDomain([Fresh, NearExpiry, Expired], FreshnessLabel, FreshnessLabel, "FoodFreshness")

  lemma FreshnessLabelsDistinct()
    ensures DistinctDisplayNames(FreshnessDomain)
  {
    assert !EqualsIgnoreCase("Fresh", "Near_Expiry");
    assert !CharEqualsIgnoreCase("Fresh"[0], "Expired"[0]);
    assert !CharEqualsIgnoreCase("Near_Expiry"[0], "Expired"[0]);
  }

  /** Every label the store writes reads back as its own freshness state. */
  lemma LookupFreshnessLabel(f: FoodFreshness)
    ensures Lookup(FreshnessDomain, FreshnessLabel(f)) == Ok(f)
  {
    FreshnessLabelsDistinct();
    var k := match f case Fresh => 0 case NearExpiry => 1 case Expired => 2;
    LookupDisplayName(FreshnessDomain, k);
  }
}
