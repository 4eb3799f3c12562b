/** The part of PeopleDetector.detect that runs after inference: keep the
    predictions of the person class above the confidence threshold, give each a
    box centre and a coarse spatial-hash id, lazily allot a display colour per
    id, and build the parallel `people` and `keypoints` lists.

    The network itself is not modelled: its output for one image is a sequence
    of predictions with integer boxes. The random draws the source makes
    (`random.randint` for a colour, `random.choice` for age group and gender)
    are an oracle sequence aligned with the predictions. */
module Detector {

  datatype Box = Box(x1: int, y1: int, x2: int, y2: int)

  /** One raw output of the detector network: box, score and class label. */
  datatype Prediction = Prediction(box: Box, score: real, category: int)

  datatype Point = Point(x: int, y: int)

  /** A display colour: the source's list of three `randint(0, 255)` values. */
  datatype Rgb = Rgb(r: int, g: int, b: int)

  datatype AgeGroup = Under18 | Age18To34 | Age35To54 | Age55Plus

  datatype Gender = Male | Female

  /** The random values the source draws for one prediction. The colour is
      used only when the prediction's id has no colour yet. */
  datatype Draw = Draw(color: Rgb, ageGroup: AgeGroup, gender: Gender)

  /** One entry of the returned `people` list. */
  datatype Person = Person(id: string, box: Box, confidence: real,
                           ageGroup: AgeGroup, gender: Gender, position: Point)

  /** `detect`'s default `confidence_threshold`. */
  const DefaultThreshold: real := 0.7

  /** Side of the square cells of the spatial hash. */
  const CellSize: int := 50

  function AgeLabel(g: AgeGroup): string
  {
    match g
    case Under18 => "0-17"
    case Age18To34 => "18-34"
    case Age35To54 => "35-54"
    case Age55Plus => "55+"
  }

  function GenderLabel(g: Gender): string
  {
    match g
    case Male => "Male"
    case Female => "Female"
  }

  predicate ValidColor(c: Rgb)
  {
    0 <= c.r <= 255 && 0 <= c.g <= 255 && 0 <= c.b <= 255
  }

  /** The oracle only yields colours `randint(0, 255)` can produce. */
  predicate ValidDraws(draws: seq<Draw>)
  {
    forall i :: 0 <= i < |draws| ==> ValidColor(draws[i].color)
  }

  predicate ValidColors(colors: map<string, Rgb>)
  {
    forall id :: id in colors ==> ValidColor(colors[id])
  }

  /** First position of `x` in `s`: Python's `list.index`. */
  function IndexOf(s: seq<string>, x: string): (r: nat)
    requires x in s
    ensures r < |s| && s[r] == x
    ensures forall j :: 0 <= j < r ==> s[j] != x
  {
    if s[0] == x then 0 else 1 + IndexOf(s[1..], x)
  }

  // ---------------------------------------------------------------------
  // Filtering: np.where((labels == person_class_id) & (scores > threshold))

  predicate IsPerson(p: Prediction, classId: int, threshold: real)
  {
    p.category == classId && p.score > threshold
  }

  predicate StrictlyIncreasing(s: seq<nat>)
  {
    forall i, j :: 0 <= i < j < |s| ==> s[i] < s[j]
  }

  /** The indices of the kept predictions, in index order. */
  function PersonIndices(preds: seq<Prediction>, classId: int, threshold: real): (r: seq<nat>)
    ensures |r| <= |preds|
    ensures forall k :: 0 <= k < |r| ==> r[k] < |preds| && IsPerson(preds[r[k]], classId, threshold)
    ensures StrictlyIncreasing(r)
  {
    if |preds| == 0 then []
    else
      var last := |preds| - 1;
      PersonIndices(preds[..last], classId, threshold)
        + (if IsPerson(preds[last], classId, threshold) then [last] else [])
  }

  /** Every prediction of the person class above the threshold is kept. */
  lemma {:induction false} PersonIndicesComplete(preds: seq<Prediction>, classId: int, threshold: real, i: nat)
    requires i < |preds| && IsPerson(preds[i], classId, threshold)
    ensures i in PersonIndices(preds, classId, threshold)
  {
    var last := |preds| - 1;
    if i < last {
      PersonIndicesComplete(preds[..last], classId, threshold, i);
    }
  }

  /** Kept exactly when it is of the person class and scores strictly above
      the threshold, in both directions. */
  lemma PersonIndicesExact(preds: seq<Prediction>, classId: int, threshold: real, i: nat)
    ensures i in PersonIndices(preds, classId, threshold)
        <==> i < |preds| && IsPerson(preds[i], classId, threshold)
  {
    if i < |preds| && IsPerson(preds[i], classId, threshold) {
      PersonIndicesComplete(preds, classId, threshold, i);
    }
  }

  // ---------------------------------------------------------------------
  // Centre and spatial-hash id

  /** `((x1 + x2) // 2, (y1 + y2) // 2)`. Python's `//` by a positive divisor
      rounds toward minus infinity, as Dafny's `/` does. */
  function Centre(b: Box): (c: Point)
    ensures 2 * c.x <= b.x1 + b.x2 < 2 * c.x + 2
    ensures 2 * c.y <= b.y1 + b.y2 < 2 * c.y + 2
    ensures b.x1 <= b.x2 ==> b.x1 <= c.x <= b.x2
    ensures b.y1 <= b.y2 ==> b.y1 <= c.y <= b.y2
  {
    Point((b.x1 + b.x2) / 2, (b.y1 + b.y2) / 2)
  }

  function DigitChar(d: nat): (c: char)
    requires d < 10
    ensures '0' <= c <= '9'
  {
    (48 + d) as char
  }

  /** Decimal digits of `n`, without leading zeros (Python's `str`). */
  function NatToString(n: nat): (s: string)
    ensures |s| >= 1 && (|s| == 1 <==> n < 10)
    ensures forall k :: 0 <= k < |s| ==> '0' <= s[k] <= '9'
  {
    if n < 10 then [DigitChar(n)] else NatToString(n / 10) + [DigitChar(n % 10)]
  }

  /** Python's `str` of an integer: a minus sign before the digits. */
  function IntToString(i: int): (s: string)
    ensures |s| >= 1
    ensures forall k :: 0 <= k < |s| ==> s[k] != '_'
    ensures (s[0] == '-') <==> i < 0
  {
    if i < 0 then "-" + NatToString(-i) else NatToString(i)
  }

  lemma {:induction false} NatToStringInjective(a: nat, b: nat)
    requires NatToString(a) == NatToString(b)
    ensures a == b
  {
    if a >= 10 && b >= 10 {
      var sa, sb := NatToString(a), NatToString(b);
      assert sa[..|sa| - 1] == NatToString(a / 10);
      assert sb[..|sb| - 1] == NatToString(b / 10);
      NatToStringInjective(a / 10, b / 10);
      assert DigitChar(a % 10) == sa[|sa| - 1] == sb[|sb| - 1] == DigitChar(b % 10);
    }
  }

  lemma IntToStringInjective(a: int, b: int)
    requires IntToString(a) == IntToString(b)
    ensures a == b
  {
    if a < 0 && b < 0 {
      assert NatToString(-a) == IntToString(a)[1..];
      assert NatToString(-b) == IntToString(b)[1..];
      NatToStringInjective(-a, -b);
    } else if a >= 0 && b >= 0 {
      NatToStringInjective(a, b);
    }
  }

  /** The spatial-hash cell a centre falls in. */
  function Cell(c: Point): (int, int)
  {
    (c.x / CellSize, c.y / CellSize)
  }

  /** `f"{center_x//50}_{center_y//50}"`. */
  function PositionId(c: Point): string
  {
    IntToString(c.x / CellSize) + "_" + IntToString(c.y / CellSize)
  }

  /** Where `a`, `"_"` and `b` sit in `a + "_" + b`. */
  lemma JoinAt(a: string, b: string, i: int)
    ensures |a + "_" + b| == |a| + 1 + |b|
    ensures 0 <= i < |a| ==> (a + "_" + b)[i] == a[i]
    ensures (a + "_" + b)[|a|] == '_'
  {
  }

  lemma JoinInjective(a: string, b: string, c: string, d: string)
    requires forall k :: 0 <= k < |a| ==> a[k] != '_'
    requires forall k :: 0 <= k < |c| ==> c[k] != '_'
    requires a + "_" + b == c + "_" + d
    ensures a == c && b == d
  {
    var s := a + "_" + b;
    if |a| < |c| {
      JoinAt(a, b, |a|);
      JoinAt(c, d, |a|);
      assert false;
    } else if |c| < |a| {
      JoinAt(a, b, |c|);
      JoinAt(c, d, |c|);
      assert false;
    } else {
      assert a == s[..|a|] == c;
      assert b == s[|a| + 1..] == d;
    }
  }

  /** Two centres get the same id exactly when they fall in the same 50 by 50
      cell: the id is a spatial hash, not a tracker. */
  lemma IdsCollideIffSameCell(p: Point, q: Point)
    ensures PositionId(p) == PositionId(q) <==> Cell(p) == Cell(q)
  {
    if PositionId(p) == PositionId(q) {
      JoinInjective(IntToString(p.x / CellSize), IntToString(p.y / CellSize),
                    IntToString(q.x / CellSize), IntToString(q.y / CellSize));
      IntToStringInjective(p.x / CellSize, q.x / CellSize);
      IntToStringInjective(p.y / CellSize, q.y / CellSize);
    }
  }

  /** Centres (10, 10) and (20, 20) share the id "0_0". */
  lemma SameCellExample()
    ensures PositionId(Point(10, 10)) == "0_0" == PositionId(Point(20, 20))
  {
    assert IntToString(0) == "0";
  }

  // ---------------------------------------------------------------------
  // The people list

  /** The record built for one kept prediction: its centre, the centre's
      spatial-hash id, the score as confidence and the drawn labels. */
  function MakePerson(p: Prediction, d: Draw): Person
  {
    var c := Centre(p.box);
    Person(PositionId(c), p.box, p.score, d.ageGroup, d.gender, c)
  }

  /** Every index in `idx` selects an element of a sequence of length `n`. */
  predicate IndicesBelow(idx: seq<nat>, n: nat)
  {
    forall j :: 0 <= j < |idx| ==> idx[j] < n
  }

  /** The person built from each selected prediction, in order. */
  function PeopleAt(preds: seq<Prediction>, draws: seq<Draw>, idx: seq<nat>): seq<Person>
    requires |draws| == |preds| && IndicesBelow(idx, |preds|)
  {
    seq(|idx|, k requires 0 <= k < |idx| => MakePerson(preds[idx[k]], draws[idx[k]]))
  }

  /** The colour drawn for each selected prediction, in order. */
  function ColorsAt(draws: seq<Draw>, idx: seq<nat>): seq<Rgb>
    requires IndicesBelow(idx, |draws|)
  {
    seq(|idx|, k requires 0 <= k < |idx| => draws[idx[k]].color)
  }

  /** The `people` list `detect` returns for these predictions and draws. */
  function DetectedPeople(preds: seq<Prediction>, draws: seq<Draw>, classId: int, threshold: real): seq<Person>
    requires |draws| == |preds|
  {
    PeopleAt(preds, draws, PersonIndices(preds, classId, threshold))
  }

  /** The keypoints of a list of people: their positions, in order. */
  function Positions(people: seq<Person>): seq<Point>
  {
    if |people| == 0 then [] else Positions(people[..|people| - 1]) + [people[|people| - 1].position]
  }

  lemma {:induction false} PositionsAt(people: seq<Person>)
    ensures |Positions(people)| == |people|
    ensures forall k :: 0 <= k < |people| ==> Positions(people)[k] == people[k].position
  {
    if |people| > 0 {
      PositionsAt(people[..|people| - 1]);
    }
  }

  /** Each returned person comes from a kept prediction, in index order:
      its confidence is the prediction's score, its position the box centre,
      its id the centre's cell; every kept prediction appears. */
  lemma DetectedPeopleFromPredictions(preds: seq<Prediction>, draws: seq<Draw>, classId: int, threshold: real)
    requires |draws| == |preds|
    ensures var ps, idx := DetectedPeople(preds, draws, classId, threshold), PersonIndices(preds, classId, threshold);
      |ps| == |idx| &&
      (forall k :: 0 <= k < |ps| ==>
        idx[k] < |preds| && IsPerson(preds[idx[k]], classId, threshold) &&
        ps[k].box == preds[idx[k]].box &&
        ps[k].confidence == preds[idx[k]].score &&
        ps[k].position == Centre(preds[idx[k]].box) &&
        ps[k].id == PositionId(ps[k].position) &&
        ps[k].ageGroup == draws[idx[k]].ageGroup &&
        ps[k].gender == draws[idx[k]].gender) &&
      (forall i :: 0 <= i < |preds| && IsPerson(preds[i], classId, threshold) ==> i in idx)
  {
    forall i | 0 <= i < |preds| && IsPerson(preds[i], classId, threshold)
      ensures i in PersonIndices(preds, classId, threshold)
    {
      PersonIndicesComplete(preds, classId, threshold, i);
    }
  }

  // ---------------------------------------------------------------------
  // The colour map

  /** `if position_id not in self.colors: self.colors[position_id] = colour`. */
  function InsertNew<K, V>(m: map<K, V>, e: (K, V)): map<K, V>
  {
    if e.0 in m then m else m[e.0 := e.1]
  }

  /** Insert each (id, colour) in turn unless the id already has a colour. */
  function AddColors<K, V>(m: map<K, V>, entries: seq<(K, V)>): map<K, V>
  {
    if |entries| == 0 then m
    else InsertNew(AddColors(m, entries[..|entries| - 1]), entries[|entries| - 1])
  }

  lemma PrefixSnoc<T>(s: seq<T>, k: nat)
    requires 0 < k <= |s|
    ensures s[..k] == s[..k - 1] + [s[k - 1]]
  {
  }

  lemma PrefixFull<T>(s: seq<T>)
    ensures s[..|s|] == s
  {
  }

  lemma AddColorsStep<K, V>(m: map<K, V>, entries: seq<(K, V)>, k: nat)
    requires k < |entries|
    ensures AddColors(m, entries[..k + 1]) == InsertNew(AddColors(m, entries[..k]), entries[k])
  {
    assert entries[..k + 1][..k] == entries[..k];
  }

  /** The (id, colour draw) pair of each kept prediction, in order. */
  function ColorEntries(preds: seq<Prediction>, draws: seq<Draw>, classId: int, threshold: real): seq<(string, Rgb)>
    requires |draws| == |preds|
  {
    var ps, cs := DetectedPeople(preds, draws, classId, threshold), ColorsAt(draws, PersonIndices(preds, classId, threshold));
    seq(|ps|, k requires 0 <= k < |ps| => (ps[k].id, cs[k]))
  }

  /** No colour already allotted changes and no key is removed. */
  lemma {:induction false} AddColorsKeeps<K, V>(m: map<K, V>, entries: seq<(K, V)>, id: K)
    requires id in m
    ensures id in AddColors(m, entries) && AddColors(m, entries)[id] == m[id]
  {
    if |entries| > 0 {
      AddColorsKeeps(m, entries[..|entries| - 1], id);
    }
  }

  /** Every id inserted has a colour afterwards. */
  lemma {:induction false} AddColorsCovers<K, V>(m: map<K, V>, entries: seq<(K, V)>, k: nat)
    requires k < |entries|
    ensures entries[k].0 in AddColors(m, entries)
  {
    var prefix := entries[..|entries| - 1];
    if k < |entries| - 1 {
      assert entries[k] == prefix[k];
      AddColorsCovers(m, prefix, k);
    }
  }

  /** A key that was not there before is an inserted id, and its colour is the
      one drawn for the FIRST entry with that id. */
  lemma {:induction false} AddColorsNewKey<K, V>(m: map<K, V>, entries: seq<(K, V)>, id: K)
    requires id in AddColors(m, entries) && id !in m
    ensures exists k :: 0 <= k < |entries| && entries[k] == (id, AddColors(m, entries)[id]) &&
                        forall j :: 0 <= j < k ==> entries[j].0 != id
  {
    var r := AddColors(m, entries);
    var prefix := entries[..|entries| - 1];
    var m' := AddColors(m, prefix);
    var last := |entries| - 1;
    if id in m' {
      AddColorsNewKey(m, prefix, id);
      var k :| 0 <= k < |prefix| && prefix[k] == (id, m'[id]) &&
               forall j :: 0 <= j < k ==> prefix[j].0 != id;
      assert entries[k] == prefix[k];
      assert forall j :: 0 <= j < k ==> entries[j] == prefix[j];
    } else {
      assert entries[last] == (id, r[id]);
      forall j | 0 <= j < last ensures entries[j].0 != id {
        assert entries[j] == prefix[j];
        if entries[j].0 == id {
          AddColorsCovers(m, prefix, j);
        }
      }
    }
  }

  /** If every colour drawn is valid, every colour in the map stays valid. */
  lemma AddColorsValid(m: map<string, Rgb>, entries: seq<(string, Rgb)>)
    requires ValidColors(m)
    requires forall k :: 0 <= k < |entries| ==> ValidColor(entries[k].1)
    ensures ValidColors(AddColors(m, entries))
  {
    var r := AddColors(m, entries);
    forall id | id in r ensures ValidColor(r[id]) {
      if id in m {
        AddColorsKeeps(m, entries, id);
      } else {
        AddColorsNewKey(m, entries, id);
      }
    }
  }

  /** People, keypoints and colour map after the first `k` rounds of the loop
      over people `ps` with drawn colours `cs`, starting from the map `m`. */
  function DetectRounds(m: map<string, Rgb>, ps: seq<Person>, cs: seq<Rgb>, k: nat)
    : (seq<Person>, seq<Point>, map<string, Rgb>)
    requires |cs| == |ps| && k <= |ps|
  {
    if k == 0 then ([], [], m)
    else
      var prev := DetectRounds(m, ps, cs, k - 1);
      (prev.0 + [ps[k - 1]], prev.1 + [ps[k - 1].position], InsertNew(prev.2, (ps[k - 1].id, cs[k - 1])))
  }

  /** One more round appends one person and keypoint and may add a colour. */
  lemma DetectRoundsStep(m: map<string, Rgb>, ps: seq<Person>, cs: seq<Rgb>, k: nat)
    requires |cs| == |ps| && k < |ps|
    ensures var prev, next := DetectRounds(m, ps, cs, k), DetectRounds(m, ps, cs, k + 1);
      next.0 == prev.0 + [ps[k]] && next.1 == prev.1 + [ps[k].position] &&
      next.2 == InsertNew(prev.2, (ps[k].id, cs[k]))
  {
  }

  /** The rounds build the first `k` people, their positions, and the map
      grown by their (id, colour) entries. */
  lemma {:induction false} DetectRoundsMeaning(m: map<string, Rgb>, ps: seq<Person>, cs: seq<Rgb>,
                                               entries: seq<(string, Rgb)>, k: nat)
    requires |cs| == |ps| && k <= |ps| && |entries| == |ps|
    requires forall j :: 0 <= j < |ps| ==> entries[j] == (ps[j].id, cs[j])
    ensures var r := DetectRounds(m, ps, cs, k);
      r.0 == ps[..k] && |r.1| == k && (forall j :: 0 <= j < k ==> r.1[j] == ps[j].position) &&
      r.2 == AddColors(m, entries[..k])
  {
    if k > 0 {
      DetectRoundsMeaning(m, ps, cs, entries, k - 1);
      PrefixSnoc(ps, k);
      AddColorsStep(m, entries, k - 1);
    }
  }

  /** What the colour map looks like after one `detect` call. */
  lemma DetectedColors(m: map<string, Rgb>, preds: seq<Prediction>, draws: seq<Draw>, classId: int, threshold: real)
    requires |draws| == |preds| && ValidColors(m) && ValidDraws(draws)
    ensures var r, ps := AddColors(m, ColorEntries(preds, draws, classId, threshold)), DetectedPeople(preds, draws, classId, threshold);
      ValidColors(r) &&
      (forall k :: 0 <= k < |ps| ==> ps[k].id in r) &&
      (forall id :: id in m ==> id in r && r[id] == m[id])
  {
    var entries := ColorEntries(preds, draws, classId, threshold);
    var ps := DetectedPeople(preds, draws, classId, threshold);
    forall k | 0 <= k < |ps| ensures ps[k].id in AddColors(m, entries) {
      assert entries[k].0 == ps[k].id;
      AddColorsCovers(m, entries, k);
    }
    forall id | id in m ensures id in AddColors(m, entries) && AddColors(m, entries)[id] == m[id] {
      AddColorsKeeps(m, entries, id);
    }
    AddColorsValid(m, entries);
  }

  /** All rounds together: the specified people with their positions, and
      the colour map grown by their entries. */
  lemma DetectOutcome(m: map<string, Rgb>, preds: seq<Prediction>, draws: seq<Draw>, classId: int, threshold: real)
    requires |draws| == |preds| && ValidColors(m) && ValidDraws(draws)
    ensures var idx := PersonIndices(preds, classId, threshold);
      var r := DetectRounds(m, DetectedPeople(preds, draws, classId, threshold), ColorsAt(draws, idx), |idx|);
      var ps := DetectedPeople(preds, draws, classId, threshold);
      r.0 == ps && |r.1| == |ps| && (forall j :: 0 <= j < |ps| ==> r.1[j] == ps[j].position) &&
      r.2 == AddColors(m, ColorEntries(preds, draws, classId, threshold)) &&
      ValidColors(r.2) &&
      (forall j :: 0 <= j < |ps| ==> ps[j].id in r.2) &&
      (forall id :: id in m ==> id in r.2 && r.2[id] == m[id])
  {
    var idx := PersonIndices(preds, classId, threshold);
    var ps, cs := DetectedPeople(preds, draws, classId, threshold), ColorsAt(draws, idx);
    DetectRoundsMeaning(m, ps, cs, ColorEntries(preds, draws, classId, threshold), |idx|);
    PrefixFull(ps);
    PrefixFull(ColorEntries(preds, draws, classId, threshold));
    DetectedColors(m, preds, draws, classId, threshold);
  }

  // ---------------------------------------------------------------------
  // The detector object

  class PeopleDetector {
    /** `self.classes.index('person')`. */
    const personClassId: int
    /** `self.colors`: one display colour per track id seen so far. */
    var colors: map<string, Rgb>

    ghost predicate Valid()
      reads this
    {
      ValidColors(colors)
    }

    /** The class list comes from the model weights; `list.index` fails
        when it has no "person", so the constructor demands one. */
    constructor (categories: seq<string>)
      requires "person" in categories
      ensures Valid()
      ensures personClassId == IndexOf(categories, "person")
      ensures colors == map[]
    {
      personClassId := IndexOf(categories, "person");
      colors := map[];
    }

    /** The per-person loop of `detect` over the kept predictions `idx`:
        append each person and keypoint, and give each new id its drawn
        colour. */
    method Track(preds: seq<Prediction>, draws: seq<Draw>, idx: seq<nat>)
      returns (people: seq<Person>, keypoints: seq<Point>)
      requires |draws| == |preds| && IndicesBelow(idx, |preds|)
      modifies this
      ensures var r := DetectRounds(old(colors), PeopleAt(preds, draws, idx), ColorsAt(draws, idx), |idx|);
        people == r.0 && keypoints == r.1 && colors == r.2
    {
      ghost var before := colors;
      ghost var ps, cs := PeopleAt(preds, draws, idx), ColorsAt(draws, idx);
      people, keypoints := [], [];
      var k := 0;
      while k < |idx|
        invariant 0 <= k <= |idx|
        invariant people == DetectRounds(before, ps, cs, k).0
        invariant keypoints == DetectRounds(before, ps, cs, k).1
        invariant colors == DetectRounds(before, ps, cs, k).2
      {
        var i := idx[k];
        var person := MakePerson(preds[i], draws[i]);
        DetectRoundsStep(before, ps, cs, k);
        if person.id !in colors {
          colors := colors[person.id := draws[i].color];
        }
        people := people + [person];
        keypoints := keypoints + [person.position];
        k := k + 1;
      }
    }

    /** The post-inference part of `detect` over the network's predictions
        for one image and the random draws made for them. */
    method Detect(preds: seq<Prediction>, draws: seq<Draw>, threshold: real)
      returns (count: nat, people: seq<Person>, keypoints: seq<Point>)
      requires Valid() && |draws| == |preds| && ValidDraws(draws)
      modifies this
      ensures Valid()
      ensures count == |people| == |keypoints|
      ensures people == DetectedPeople(preds, draws, personClassId, threshold)
      ensures forall k :: 0 <= k < |people| ==> keypoints[k] == people[k].position
      ensures colors == AddColors(old(colors), ColorEntries(preds, draws, personClassId, threshold))
      ensures forall k :: 0 <= k < |people| ==> people[k].id in colors
      ensures forall id :: id in old(colors) ==> id in colors && colors[id] == old(colors)[id]
      ensures forall id :: id in colors && id !in old(colors) ==> ValidColor(colors[id])
    {
      var idx := PersonIndices(preds, personClassId, threshold);
      ghost var before := colors;
      people, keypoints := Track(preds, draws, idx);
      DetectOutcome(before, preds, draws, personClassId, threshold);
      count := |people|;
    }
  }
}
