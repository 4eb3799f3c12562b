/** The aggregation half of `process_frame` in backend/app.py: one record per
    detected person, age and gender bucket counts, and integer percentages
    `round(count * 100 / max(1, n))`. */
module Demographics {
  import opened Detector

  /** One entry of `process_frame`'s `demographics` list. */
  datatype PersonRecord = PersonRecord(id: string, ageGroup: AgeGroup, gender: Gender, position: Point)

  /** One entry of the `age` or `gender` list of a demographic summary: the
      `group` (or `type`) label, the count and the percentage. */
  datatype Bucket = Bucket(name: string, count: nat, percent: nat)

  datatype DemographicSummary = DemographicSummary(age: seq<Bucket>, gender: seq<Bucket>)

  /** The age buckets in the order the summary lists them. */
  const AgeGroups: seq<AgeGroup> := [Under18, Age18To34, Age35To54, Age55Plus]

  /** The gender buckets in the order the summary lists them. */
  const Genders: seq<Gender> := [Male, Female]

  predicate HasAllAgeGroups(m: map<AgeGroup, nat>)
  {
    Under18 in m && Age18To34 in m && Age35To54 in m && Age55Plus in m
  }

  predicate HasAllGenders(m: map<Gender, nat>)
  {
    Male in m && Female in m
  }

  lemma AgeGroupKey(m: map<AgeGroup, nat>, g: AgeGroup)
    requires HasAllAgeGroups(m)
    ensures g in m
  {
    match g
    case Under18 =>
    case Age18To34 =>
    case Age35To54 =>
    case Age55Plus =>
  }

  lemma GenderKey(m: map<Gender, nat>, g: Gender)
    requires HasAllGenders(m)
    ensures g in m
  {
    match g
    case Male =>
    case Female =>
  }

  function Max(a: int, b: int): int
  {
    if a >= b then a else b
  }

  // ---------------------------------------------------------------------
  // Records

  function ToRecord(p: Person): PersonRecord
  {
    PersonRecord(p.id, p.ageGroup, p.gender, p.position)
  }

  /** One record per person, in order. */
  function Records(people: seq<Person>): seq<PersonRecord>
  {
    if |people| == 0 then [] else Records(people[..|people| - 1]) + [ToRecord(people[|people| - 1])]
  }

  lemma {:induction false} RecordsAt(people: seq<Person>)
    ensures |Records(people)| == |people|
    ensures forall k :: 0 <= k < |people| ==> Records(people)[k] == ToRecord(people[k])
  {
    if |people| > 0 {
      RecordsAt(people[..|people| - 1]);
    }
  }

  /** The `for person in results['people']: demographics.append(...)` loop. */
  method ExtractDemographics(people: seq<Person>) returns (records: seq<PersonRecord>)
    ensures |records| == |people|
    ensures forall i :: 0 <= i < |people| ==>
      records[i].id == people[i].id && records[i].ageGroup == people[i].ageGroup &&
      records[i].gender == people[i].gender && records[i].position == people[i].position
  {
    records := [];
    for i := 0 to |people|
      invariant |records| == i
      invariant forall j :: 0 <= j < i ==> records[j] == ToRecord(people[j])
    {
      records := records + [ToRecord(people[i])];
    }
  }

  // ---------------------------------------------------------------------
  // Bucket counts

  function CountAge(records: seq<PersonRecord>, g: AgeGroup): (c: nat)
    ensures c <= |records|
  {
    if |records| == 0 then 0
    else CountAge(records[..|records| - 1], g) + (if records[|records| - 1].ageGroup == g then 1 else 0)
  }

  function CountGender(records: seq<PersonRecord>, g: Gender): (c: nat)
    ensures c <= |records|
  {
    if |records| == 0 then 0
    else CountGender(records[..|records| - 1], g) + (if records[|records| - 1].gender == g then 1 else 0)
  }

  /** Every person is counted in exactly one age bucket. */
  lemma {:induction false} AgeCountsSum(records: seq<PersonRecord>)
    ensures CountAge(records, Under18) + CountAge(records, Age18To34)
          + CountAge(records, Age35To54) + CountAge(records, Age55Plus) == |records|
  {
    if |records| > 0 {
      AgeCountsSum(records[..|records| - 1]);
    }
  }

  /** Every person is counted in exactly one gender bucket. */
  lemma {:induction false} GenderCountsSum(records: seq<PersonRecord>)
    ensures CountGender(records, Male) + CountGender(records, Female) == |records|
  {
    if |records| > 0 {
      GenderCountsSum(records[..|records| - 1]);
    }
  }

  /** The `age_stats` / `gender_stats` loop: both dicts start with every key at
      0 and each person increments one entry of each. */
  method CountBuckets(records: seq<PersonRecord>) returns (ageStats: map<AgeGroup, nat>, genderStats: map<Gender, nat>)
    ensures HasAllAgeGroups(ageStats) && forall g :: g in ageStats ==> ageStats[g] == CountAge(records, g)
    ensures HasAllGenders(genderStats) && forall g :: g in genderStats ==> genderStats[g] == CountGender(records, g)
    ensures ageStats[Under18] + ageStats[Age18To34] + ageStats[Age35To54] + ageStats[Age55Plus] == |records|
    ensures genderStats[Male] + genderStats[Female] == |records|
  {
    ageStats := map[Under18 := 0, Age18To34 := 0, Age35To54 := 0, Age55Plus := 0];
    genderStats := map[Male := 0, Female := 0];
    for i := 0 to |records|
      invariant HasAllAgeGroups(ageStats) && forall g :: g in ageStats ==> ageStats[g] == CountAge(records[..i], g)
      invariant HasAllGenders(genderStats) && forall g :: g in genderStats ==> genderStats[g] == CountGender(records[..i], g)
    {
      assert records[..i + 1][..i] == records[..i];
      var person := records[i];
      AgeGroupKey(ageStats, person.ageGroup);
      GenderKey(genderStats, person.gender);
      ageStats := ageStats[person.ageGroup := ageStats[person.ageGroup] + 1];
      genderStats := genderStats[person.gender := genderStats[person.gender] + 1];
    }
    assert records[..|records|] == records;
    AgeCountsSum(records);
    GenderCountsSum(records);
  }

  // ---------------------------------------------------------------------
  // Percentages

  /** Quotient and remainder of `a` by `d`, by repeated subtraction. */
  function DivMod(a: nat, d: nat): (nat, nat)
    requires d > 0
    decreases a
  {
    if a < d then (0, a)
    else
      var qm := DivMod(a - d, d);
      (qm.0 + 1, qm.1)
  }

  /** `DivMod` is Euclidean division. */
  lemma {:induction false} DivModMeaning(a: nat, d: nat)
    requires d > 0
    ensures var qm := DivMod(a, d);
      a == qm.0 * d + qm.1 && qm.1 < d
  {
    if a >= d {
      DivModMeaning(a - d, d);
      MulSucc(DivMod(a - d, d).0, d);
    }
  }

  /** Python's `round` on the rational `a / d`: ties go to the even
      neighbour. */
  function RoundHalfEven(a: nat, d: nat): nat
    requires d > 0
  {
    var qm := DivMod(a, d);
    var q, m := qm.0, qm.1;
    if 2 * m < d then q
    else if 2 * m > d then q + 1
    else if q % 2 == 0 then q
    else q + 1
  }

  /** The rounding argument with the products `q * d` and `r * d` as plain
      numbers `qd` and `rd`. */
  lemma NearestLinear(a: int, d: int, q: int, m: int, r: int, qd: int, rd: int)
    requires a == qd + m && 0 <= m < d
    requires r == q ==> rd == qd && 2 * m <= d && (2 * m == d ==> q % 2 == 0)
    requires r == q + 1 ==> rd == qd + d && 2 * m >= d && (2 * m == d ==> q % 2 == 1)
    requires r == q || r == q + 1
    ensures 2 * a - d <= 2 * rd <= 2 * a + d
    ensures (2 * rd == 2 * a - d || 2 * rd == 2 * a + d) ==> r % 2 == 0
  {
  }

  /** The rounded value is a nearest integer to `a / d` (within half of it),
      and an exact tie is resolved to the even one. */
  lemma RoundHalfEvenNearest(a: nat, d: nat)
    requires d > 0
    ensures var r := RoundHalfEven(a, d);
      2 * a - d <= 2 * (r * d) <= 2 * a + d &&
      ((2 * (r * d) == 2 * a - d || 2 * (r * d) == 2 * a + d) ==> r % 2 == 0)
  {
    var q, m := DivMod(a, d).0, DivMod(a, d).1;
    var r := RoundHalfEven(a, d);
    DivModMeaning(a, d);
    MulSucc(q, d);
    NearestLinear(a, d, q, m, r, q * d, r * d);
  }

  /** `round(count * 100 / max(1, n))`. */
  function Percent(count: nat, n: nat): nat
  {
    RoundHalfEven(count * 100, Max(1, n))
  }

  lemma MulMonotone(a: int, b: int, n: int)
    requires a <= b && n >= 0
    ensures a * n <= b * n
  {
  }

  lemma MulSucc(a: int, n: int)
    ensures (a + 1) * n == a * n + n
  {
  }

  /** Dividing a chain of products by the positive factor `n`. */
  lemma DivideBounds(s: int, n: int, lo: int, hi: int)
    requires n > 0 && (lo - 1) * n < s * n < (hi + 1) * n
    ensures lo <= s <= hi
  {
    if s < lo {
      MulMonotone(s + 1, lo, n);
      MulSucc(s, n);
      MulSucc(lo - 1, n);
    }
    if hi < s {
      MulMonotone(hi + 1, s, n);
      MulSucc(hi, n);
      MulSucc(s - 1, n);
    }
  }

  /** `2 * (p * n)` is within `n` of `200 * c`, for `p == Percent(c, n)`. */
  lemma PercentNearest(c: nat, n: nat)
    requires n > 0
    ensures RoundedPercent(Percent(c, n), c, n)
  {
    RoundHalfEvenNearest(c * 100, n);
  }

  /** A bucket holding at most all `n` persons gets a percentage in [0, 100]. */
  lemma PercentInRange(count: nat, n: nat)
    requires count <= n
    ensures 0 <= Percent(count, n) <= 100
  {
    var d := Max(1, n);
    var p := Percent(count, n);
    RoundHalfEvenNearest(count * 100, d);
    assert 2 * (p * d) <= 200 * d + d;
    assert (0 - 1) * d < p * d < (100 + 1) * d;
    DivideBounds(p, d, 0, 100);
  }

  /** No persons: every percentage is 0 (the `max(1, n)` policy). */
  lemma PercentOfNone()
    ensures Percent(0, 0) == 0
  {
  }

  /** `p` is `c * 100 / n` rounded half to even, stated without division. */
  ghost predicate RoundedPercent(p: int, c: int, n: int)
  {
    200 * c - n <= 2 * (p * n) <= 200 * c + n &&
    ((2 * (p * n) == 200 * c - n || 2 * (p * n) == 200 * c + n) ==> p % 2 == 0)
  }

  lemma TwoRoundedSum(c1: int, c2: int, p1: int, p2: int)
    requires c1 + c2 > 0
    requires RoundedPercent(p1, c1, c1 + c2) && RoundedPercent(p2, c2, c1 + c2)
    ensures p1 + p2 == 100
  {
    var n, s := c1 + c2, p1 + p2;
    assert s * n == p1 * n + p2 * n;
    DivideBounds(s, n, 99, 101);
  }

  lemma FourRoundedSum(c1: int, c2: int, c3: int, c4: int, p1: int, p2: int, p3: int, p4: int)
    requires c1 + c2 + c3 + c4 > 0
    requires var n := c1 + c2 + c3 + c4;
      RoundedPercent(p1, c1, n) && RoundedPercent(p2, c2, n) &&
      RoundedPercent(p3, c3, n) && RoundedPercent(p4, c4, n)
    ensures 98 <= p1 + p2 + p3 + p4 <= 102
  {
    var n, s := c1 + c2 + c3 + c4, p1 + p2 + p3 + p4;
    assert s * n == p1 * n + p2 * n + p3 * n + p4 * n;
    DivideBounds(s, n, 98, 102);
  }

  /** Two buckets that partition `n > 0` persons get percentages summing to
      exactly 100: half-to-even rounding never pushes both up or both down. */
  lemma TwoPercentsSum(c1: nat, c2: nat)
    requires c1 + c2 > 0
    ensures Percent(c1, c1 + c2) + Percent(c2, c1 + c2) == 100
  {
    PercentNearest(c1, c1 + c2);
    PercentNearest(c2, c1 + c2);
    TwoRoundedSum(c1, c2, Percent(c1, c1 + c2), Percent(c2, c1 + c2));
  }

  /** Four buckets that partition `n > 0` persons get percentages summing to
      within 2 (four half-point rounding errors) of 100. */
  lemma FourPercentsSum(c1: nat, c2: nat, c3: nat, c4: nat)
    requires c1 + c2 + c3 + c4 > 0
    ensures var n := c1 + c2 + c3 + c4;
      98 <= Percent(c1, n) + Percent(c2, n) + Percent(c3, n) + Percent(c4, n) <= 102
  {
    var n := c1 + c2 + c3 + c4;
    PercentNearest(c1, n);
    PercentNearest(c2, n);
    PercentNearest(c3, n);
    PercentNearest(c4, n);
    FourRoundedSum(c1, c2, c3, c4, Percent(c1, n), Percent(c2, n), Percent(c3, n), Percent(c4, n));
  }

  // ---------------------------------------------------------------------
  // The summary

  /** One `{name, count, percentage}` entry of the summary. */
  function MakeBucket(name: string, count: nat, n: nat): Bucket
  {
    Bucket(name, count, Percent(count, n))
  }

  /** The summary of six bucket counts out of `n` people, in the counters'
      key order. */
  function SummaryOf(under18: nat, age18To34: nat, age35To54: nat, age55Plus: nat,
                     male: nat, female: nat, n: nat): DemographicSummary
  {
    DemographicSummary(
      [MakeBucket(AgeLabel(Under18), under18, n),
       MakeBucket(AgeLabel(Age18To34), age18To34, n),
       MakeBucket(AgeLabel(Age35To54), age35To54, n),
       MakeBucket(AgeLabel(Age55Plus), age55Plus, n)],
      [MakeBucket(GenderLabel(Male), male, n),
       MakeBucket(GenderLabel(Female), female, n)])
  }

  /** The `demographic_summary` dict built from the two counters. */
  function BuildSummary(ageStats: map<AgeGroup, nat>, genderStats: map<Gender, nat>, n: nat): DemographicSummary
    requires HasAllAgeGroups(ageStats) && HasAllGenders(genderStats)
  {
    SummaryOf(ageStats[Under18], ageStats[Age18To34], ageStats[Age35To54], ageStats[Age55Plus],
              genderStats[Male], genderStats[Female], n)
  }

  /** The summary of a list of records. */
  function Summarize(records: seq<PersonRecord>): DemographicSummary
  {
    SummaryOf(CountAge(records, Under18), CountAge(records, Age18To34),
              CountAge(records, Age35To54), CountAge(records, Age55Plus),
              CountGender(records, Male), CountGender(records, Female), |records|)
  }

  /** A summary built from counters that hold the true counts is the
      summary of the records. */
  lemma SummaryOfCounters(records: seq<PersonRecord>, ageStats: map<AgeGroup, nat>, genderStats: map<Gender, nat>)
    requires HasAllAgeGroups(ageStats) && forall g :: g in ageStats ==> ageStats[g] == CountAge(records, g)
    requires HasAllGenders(genderStats) && forall g :: g in genderStats ==> genderStats[g] == CountGender(records, g)
    ensures BuildSummary(ageStats, genderStats, |records|) == Summarize(records)
  {
    assert ageStats[Under18] == CountAge(records, Under18);
    assert ageStats[Age18To34] == CountAge(records, Age18To34);
    assert ageStats[Age35To54] == CountAge(records, Age35To54);
    assert ageStats[Age55Plus] == CountAge(records, Age55Plus);
    assert genderStats[Male] == CountGender(records, Male);
    assert genderStats[Female] == CountGender(records, Female);
  }

  /** The summary lists the four age buckets and the two gender buckets in
      order, each with its count and `round(count * 100 / max(1, n))`; the
      counts of each list add up to the number of records and every
      percentage lies in [0, 100]. */
  lemma SummaryBuckets(records: seq<PersonRecord>)
    ensures var s, n := Summarize(records), |records|;
      |s.age| == 4 && |s.gender| == 2 &&
      (forall j :: 0 <= j < 4 ==>
        s.age[j].name == AgeLabel(AgeGroups[j]) &&
        s.age[j].count == CountAge(records, AgeGroups[j]) &&
        s.age[j].percent == Percent(s.age[j].count, n) &&
        0 <= s.age[j].percent <= 100) &&
      (forall j :: 0 <= j < 2 ==>
        s.gender[j].name == GenderLabel(Genders[j]) &&
        s.gender[j].count == CountGender(records, Genders[j]) &&
        s.gender[j].percent == Percent(s.gender[j].count, n) &&
        0 <= s.gender[j].percent <= 100) &&
      s.age[0].count + s.age[1].count + s.age[2].count + s.age[3].count == n &&
      s.gender[0].count + s.gender[1].count == n
  {
    var n := |records|;
    AgeCountsSum(records);
    GenderCountsSum(records);
    forall g: AgeGroup ensures 0 <= Percent(CountAge(records, g), n) <= 100 {
      PercentInRange(CountAge(records, g), n);
    }
    forall g: Gender ensures 0 <= Percent(CountGender(records, g), n) <= 100 {
      PercentInRange(CountGender(records, g), n);
    }
  }

  /** A frame with nobody in it: every count and every percentage is 0. */
  lemma EmptySummary()
    ensures var s := Summarize([]);
      |s.age| == 4 && |s.gender| == 2 &&
      (forall j :: 0 <= j < 4 ==> s.age[j].count == 0 && s.age[j].percent == 0) &&
      (forall j :: 0 <= j < 2 ==> s.gender[j].count == 0 && s.gender[j].percent == 0)
  {
    SummaryBuckets([]);
  }

  /** With at least one person, the gender percentages add up to exactly
      100 and the age percentages to 100 give or take 2. */
  lemma SummaryPercentTotals(records: seq<PersonRecord>)
    requires |records| > 0
    ensures var s := Summarize(records);
      |s.age| == 4 && |s.gender| == 2 &&
      s.gender[0].percent + s.gender[1].percent == 100 &&
      98 <= s.age[0].percent + s.age[1].percent + s.age[2].percent + s.age[3].percent <= 102
  {
    var s := Summarize(records);
    SummaryBuckets(records);
    TwoPercentsSum(s.gender[0].count, s.gender[1].count);
    FourPercentsSum(s.age[0].count, s.age[1].count, s.age[2].count, s.age[3].count);
  }
}
