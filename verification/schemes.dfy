/** The government scheme catalogue and the three ways of reading it:
    a possibly limited list, lookup by id, and a daily rotation. */
module Schemes {
  import opened Wrappers

  /** A scheme, reduced to the fields the selection logic looks at. */
  datatype Scheme = Scheme(id: string, name: string, category: string)

  /** `GOVERNMENT_SCHEMES`, in table order. */
  const Catalogue: seq<Scheme> := [
    Scheme("pm-kisan", "PM-KISAN", "Direct Benefit Transfer"),
    Scheme("pmfby", "PMFBY", "Insurance"),
    Scheme("kcc", "KCC", "Credit Facility"),
    Scheme("pm-kusum", "PM-KUSUM", "Solar Energy"),
    Scheme("soil-health-card", "Soil Health Card", "Soil Management"),
    Scheme("paramparagat-krishi", "PKVY", "Organic Farming"),
    Scheme("mgnrega", "MGNREGA", "Employment"),
    Scheme("pm-aasha", "PM-AASHA", "Price Support"),
    Scheme("pmkvy", "PMKVY", "Skill Development"),
    Scheme("pmfme", "PMFME", "Food Processing"),
    Scheme("nmmi", "NMMI", "Oilseeds"),
    Scheme("pmay-g", "PMAY-G", "Housing"),
    Scheme("kalia", "KALIA", "State Scheme"),
    Scheme("rythu-bandhu", "Rythu Bandhu", "State Scheme"),
    Scheme("pm-smy", "PM-SMY", "Infrastructure"),
    Scheme("nmsa", "NMSA", "Sustainable Agriculture"),
    Scheme("smam", "SMAM", "Farm Mechanization"),
    Scheme("nfsm", "NFSM", "Food Security"),
    Scheme("nhdp", "NHDP", "Horticulture"),
    Scheme("rashtriya-gokul", "Rashtriya Gokul Mission", "Animal Husbandry")]

  /** `xs[:stop]` with Python's slice rules: a stop past the end is the end,
      and a negative stop counts from the end, down to the empty slice. */
  function SliceTo<T>(xs: seq<T>, stop: int): (r: seq<T>)
    ensures 0 <= stop ==> |r| == if stop < |xs| then stop else |xs|
    ensures stop < 0 ==> |r| == if |xs| + stop > 0 then |xs| + stop else 0
    ensures r == xs[..|r|]
  {
    if stop >= 0 then xs[..if stop < |xs| then stop else |xs|]
    else xs[..if |xs| + stop > 0 then |xs| + stop else 0]
  }

  /** `get_schemes(limit=None)`: a copy of the catalogue, sliced when
      `limit` is truthy (neither `None` nor 0). */
  function GetSchemes(limit: Option<int> := None): (r: seq<Scheme>)
    ensures limit.None? || limit == Some(0) ==> r == Catalogue
    ensures limit.Some? && limit.value > 0 ==>
      |r| == (if limit.value < |Catalogue| then limit.value else |Catalogue|)
    ensures |r| <= |Catalogue| && r == Catalogue[..|r|]
  {
    if limit.Some? && limit.value != 0 then SliceTo(Catalogue, limit.value)
    else Catalogue
  }

  /** A negative limit does not mean "no limit": it drops the last
      `-limit` schemes, and from -20 on it leaves none. */
  lemma NegativeLimitDropsTail(k: int)
    requires k > 0
    ensures var r := GetSchemes(Some(-k));
      r + Catalogue[|r|..] == Catalogue
      && |Catalogue| - |r| == (if k < |Catalogue| then k else |Catalogue|)
  {
    var r := GetSchemes(Some(-k));
    assert r == Catalogue[..|r|];
  }

  /** The first scheme of `schemes` whose id is `id`, as the source's early
      return finds it. */
  function FindById(schemes: seq<Scheme>, id: string): (r: Option<Scheme>)
    ensures r.Some? ==> r.value.id == id && r.value in schemes
    ensures r.None? <==> forall i :: 0 <= i < |schemes| ==> schemes[i].id != id
  {
    if |schemes| == 0 then None
    else if schemes[0].id == id then Some(schemes[0])
    else FindById(schemes[1..], id)
  }

  /** `get_scheme_by_id(scheme_id)` */
  function GetSchemeById(id: string): (r: Option<Scheme>)
    ensures r.Some? ==> r.value.id == id && r.value in Catalogue
    ensures r.None? <==> forall i :: 0 <= i < |Catalogue| ==> Catalogue[i].id != id
  {
    FindById(Catalogue, id)
  }

  /** The position of each id in the catalogue. */
  const IdPosition: map<string, nat> := map["pm-kisan" := 0, "pmfby" := 1, "kcc" := 2, "pm-kusum" := 3, "soil-health-card" := 4, "paramparagat-krishi" := 5, "mgnrega" := 6, "pm-aasha" := 7, "pmkvy" := 8, "pmfme" := 9, "nmmi" := 10, "pmay-g" := 11, "kalia" := 12, "rythu-bandhu" := 13, "pm-smy" := 14, "nmsa" := 15, "smam" := 16, "nfsm" := 17, "nhdp" := 18, "rashtriya-gokul" := 19]

  /** No two schemes share an id. */
  lemma IdsDistinct()
    ensures forall i, j :: 0 <= i < j < |Catalogue| ==> Catalogue[i].id != Catalogue[j].id
  {
    FirstPositions();
    LastPositions();
  }

  /** The first ten schemes sit at the positions their ids map to. */
  lemma FirstPositions()
    ensures forall i :: 0 <= i < 10 ==> Catalogue[i].id in IdPosition && IdPosition[Catalogue[i].id] == i
  {
  }

  /** So do the last ten. */
  lemma LastPositions()
    ensures forall i :: 10 <= i < 20 ==> Catalogue[i].id in IdPosition && IdPosition[Catalogue[i].id] == i
  {
  }

  /** Every scheme is found by its own id, so the lookup returns the unique
      scheme with that id. */
  lemma LookupFindsEachScheme(i: nat)
    requires i < |Catalogue|
    ensures GetSchemeById(Catalogue[i].id) == Some(Catalogue[i])
  {
    IdsDistinct();
    FindFirst(Catalogue, i);
  }

  lemma {:induction false} FindFirst(schemes: seq<Scheme>, i: nat)
    requires i < |schemes|
    requires forall j :: 0 <= j < i ==> schemes[j].id != schemes[i].id
    ensures FindById(schemes, schemes[i].id) == Some(schemes[i])
  {
    if i > 0 {
      FindFirst(schemes[1..], i - 1);
    }
  }

  /** The catalogue position shown `i`-th on a day. */
  function DailyIndex(dayOfYear: int, i: int): (k: int)
    ensures 0 <= k < |Catalogue|
  {
    (dayOfYear % |Catalogue| + i) % |Catalogue|
  }

  /** `get_daily_schemes(count=3)` on the given day of the year. */
  method GetDailySchemes(dayOfYear: int, count: int := 3) returns (r: seq<Scheme>)
    ensures |r| == if count > 0 then count else 0
    ensures forall i :: 0 <= i < |r| ==> r[i] == Catalogue[DailyIndex(dayOfYear, i)]
    ensures |r| <= |Catalogue| ==> forall i, j :: 0 <= i < j < |r| ==> r[i] != r[j]
    ensures forall i :: 0 <= i < |r| - |Catalogue| ==> r[i + |Catalogue|] == r[i]
  {
    var startIndex := dayOfYear % |Catalogue|;
    r := [];
    var i := 0;
    while i < count
      invariant 0 <= i <= (if count > 0 then count else 0) && |r| == i
      invariant forall k :: 0 <= k < i ==> r[k] == Catalogue[DailyIndex(dayOfYear, k)]
    {
      var index := (startIndex + i) % |Catalogue|;
      r := r + [Catalogue[index]];
      i := i + 1;
    }
    forall i, j | 0 <= i < j < |r| && |r| <= |Catalogue| ensures r[i] != r[j] {
      DailyIndicesDistinct(dayOfYear, i, j);
      SchemesDistinct(DailyIndex(dayOfYear, i), DailyIndex(dayOfYear, j));
    }
    forall i | 0 <= i < |r| - |Catalogue| ensures r[i + |Catalogue|] == r[i] {
      DailyIndexWraps(dayOfYear, i);
    }
  }

  /** Within one lap of the catalogue, the rotation never repeats a position. */
  lemma DailyIndicesDistinct(dayOfYear: int, i: int, j: int)
    requires 0 <= i < j < |Catalogue|
    ensures DailyIndex(dayOfYear, i) != DailyIndex(dayOfYear, j)
  {
    var s := dayOfYear % |Catalogue|;
    var n := |Catalogue|;
    assert 0 <= s < n;
    if s + i < n && s + j >= n {
      assert DailyIndex(dayOfYear, i) == s + i;
      assert DailyIndex(dayOfYear, j) == s + j - n;
    } else if s + i >= n {
      assert DailyIndex(dayOfYear, i) == s + i - n;
      assert DailyIndex(dayOfYear, j) == s + j - n;
    } else {
      assert DailyIndex(dayOfYear, i) == s + i;
      assert DailyIndex(dayOfYear, j) == s + j;
    }
  }

  /** After one lap the rotation starts over. */
  lemma DailyIndexWraps(dayOfYear: int, i: int)
    requires 0 <= i
    ensures DailyIndex(dayOfYear, i + |Catalogue|) == DailyIndex(dayOfYear, i)
  {
    var s := dayOfYear % |Catalogue|;
    var n := |Catalogue|;
    var q := (s + i) / n;
    assert s + i == q * n + DailyIndex(dayOfYear, i);
    assert s + i + n == (q + 1) * n + DailyIndex(dayOfYear, i);
  }

  /** Different positions hold different schemes. */
  lemma SchemesDistinct(i: nat, j: nat)
    requires i < |Catalogue| && j < |Catalogue| && i != j
    ensures Catalogue[i] != Catalogue[j]
  {
    IdsDistinct();
    if i > j {
      assert Catalogue[j].id != Catalogue[i].id;
    }
  }
}
