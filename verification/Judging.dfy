/** Splitting our findings into the reference's and our own. */
module Judging {
  import opened Options
  import opened Texts
  import opened Findings

  const MASK_BRIDGE := "solder_mask_bridge"

  /** A mask opening that bridges on the designer's board. */
  datatype Opening = Opening(uuid: Option<string>, at: Option<Point>)

  /** Whether all of several items are of one footprint. */
  predicate FootprintOwn(f: Finding) {
    && |f.items| > 1
    && forall i :: 0 <= i < |f.items| ==> f.items[i].owner.Some? && f.items[i].owner == f.items[0].owner
  }

  predicate IsMaskOpening(item: Item) {
    && !StartsWith(item.description, "Track") && !StartsWith(item.description, "Via")
       && !StartsWith(item.description, "Zone")
    && item.onMask
  }

  function OpeningsOf(items: seq<Item>): seq<Opening> {
    if items == [] then []
    else (if IsMaskOpening(items[0]) then [Opening(items[0].uuid, items[0].at)] else []) + OpeningsOf(items[1..])
  }

  function BridgedOpenings(findings: seq<Finding>): seq<Opening> {
    if findings == [] then []
    else
      (if findings[0].kind == MASK_BRIDGE then OpeningsOf(findings[0].items) else [])
      + BridgedOpenings(findings[1..])
  }

  predicate AmongOpenings(item: Item, openings: seq<Opening>) {
    exists i :: 0 <= i < |openings| && Matches(item, openings[i])
  }

  /** Whether an item is this opening, by its uuid or its position. */
  predicate Matches(item: Item, opening: Opening) {
    || (item.uuid.Some? && item.uuid == opening.uuid)
    || (item.at.Some? && opening.at.Some? && Near(item.at.value, opening.at.value))
  }

  predicate Prebridged(f: Finding, openings: seq<Opening>) {
    && f.kind == MASK_BRIDGE && |f.items| == 2
    && exists i :: 0 <= i < 2 &&
         var other := f.items[1 - i].description;
         IsMaskOpening(f.items[i]) && (StartsWith(other, "Track") || StartsWith(other, "Zone"))
           && AmongOpenings(f.items[i], openings)
  }

  function CountKind(findings: seq<Finding>, kind: string): nat {
    if findings == [] then 0 else (if findings[0].kind == kind then 1 else 0) + CountKind(findings[1..], kind)
  }

  /** The first unused finding of the reference at the same place, from `from` on. */
  function FirstAnswer(f: Finding, reference: seq<Finding>, used: seq<bool>, from: nat): (i: Option<nat>)
    requires |used| == |reference| && from <= |reference|
    ensures i.Some? ==> from <= i.value < |reference| && !used[i.value] && SamePlace(f, reference[i.value])
    ensures i.Some? ==> forall k :: from <= k < i.value ==> used[k] || !SamePlace(f, reference[k])
    ensures i.None? ==> forall k :: from <= k < |reference| ==> used[k] || !SamePlace(f, reference[k])
    decreases |reference| - from
  {
    if from == |reference| then None
    else if !used[from] && SamePlace(f, reference[from]) then Some(from)
    else FirstAnswer(f, reference, used, from + 1)
  }

  /** What becomes of one finding. Capped: new, of a type the reference has at the report's cap. */
  datatype Verdict = Own | Answered(index: nat) | Capped | MaskOpening | New

  function VerdictOn(f: Finding, reference: seq<Finding>, openings: seq<Opening>, used: seq<bool>): (v: Verdict)
    requires |used| == |reference|
    ensures v.Answered? ==> v.index < |reference|
  {
    if FootprintOwn(f) then Own
    else
      var answer := FirstAnswer(f, reference, used, 0);
      if answer.Some? then Answered(answer.value)
      else if CountKind(reference, f.kind) >= KICAD_FINDING_CAP then Capped
      else if Prebridged(f, openings) then MaskOpening
      else New
  }

  function Marked(used: seq<bool>, v: Verdict): (used': seq<bool>)
    requires v.Answered? ==> v.index < |used|
    ensures |used'| == |used|
  {
    if v.Answered? then used[v.index := true] else used
  }

  /** The verdicts on our findings, in their order; a reference finding that has answered is used. */
  function Judge(ours: seq<Finding>, reference: seq<Finding>, openings: seq<Opening>,
                 used: seq<bool>): (verdicts: seq<Verdict>)
    requires |used| == |reference|
    ensures |verdicts| == |ours|
  {
    if ours == [] then []
    else
      var v := VerdictOn(ours[0], reference, openings, used);
      [v] + Judge(ours[1..], reference, openings, Marked(used, v))
  }

  datatype Class = AsNew | AsPreexisting | AsMaskOpening

  predicate Falls(v: Verdict, group: Class) {
    match group
    case AsNew => v.New? || v.Capped?
    case AsPreexisting => v.Own? || v.Answered?
    case AsMaskOpening => v.MaskOpening?
  }

  /** How many findings of `kind` fall in a class. */
  function Tally(ours: seq<Finding>, verdicts: seq<Verdict>, kind: string, group: Class): nat
    requires |ours| == |verdicts|
  {
    if ours == [] then 0
    else
      (if ours[0].kind == kind && Falls(verdicts[0], group) then 1 else 0)
      + Tally(ours[1..], verdicts[1..], kind, group)
  }

  // --- What excuses a finding -----------------------------------------------------------

  /** A finding is of one footprint if and only if it has several items and one footprint owns each. */
  lemma FootprintOwnExactly(f: Finding)
    ensures FootprintOwn(f) <==>
            |f.items| > 1 && exists owner: string :: forall item :: item in f.items ==> item.owner == Some(owner)
  {
    if FootprintOwn(f) {
      assert forall item :: item in f.items ==> item.owner == Some(f.items[0].owner.value);
    }
    if |f.items| > 1 {
      if owner: string :| forall item :: item in f.items ==> item.owner == Some(owner) {
        assert forall i :: 0 <= i < |f.items| ==> f.items[i] in f.items;
      }
    }
  }

  predicate StartsWithAny(text: string, words: set<string>) { exists word :: word in words && StartsWith(text, word) }

  /** One and the same opening, or two within the tolerance of each other. */
  predicate SameOpening(item: Item, other: Item, dist: Metric) {
    || (item.uuid.Some? && item.uuid == other.uuid)
    || (item.at.Some? && other.at.Some? && dist(item.at.value, other.at.value) <= SAME_PLACE_MM)
  }

  /** Some mask bridge among the findings is of the item's opening. */
  ghost predicate BridgesThere(item: Item, findings: seq<Finding>, dist: Metric) {
    exists f, other ::
      f in findings && f.kind == "solder_mask_bridge" && IsOpeningOf(other, f) && SameOpening(item, other, dist)
  }

  ghost predicate IsOpeningOf(item: Item, f: Finding) { item in f.items && IsMaskOpening(item) }

  lemma {:induction false} InOpenings(items: seq<Item>, opening: Opening)
    ensures opening in OpeningsOf(items) <==>
            exists item :: item in items && IsMaskOpening(item) && opening == Opening(item.uuid, item.at)
  {
    if items != [] {
      InOpenings(items[1..], opening);
      assert items == [items[0]] + items[1..];
    }
  }

  lemma {:induction false} InBridged(findings: seq<Finding>, opening: Opening)
    ensures opening in BridgedOpenings(findings) <==>
            exists f :: f in findings && f.kind == MASK_BRIDGE && opening in OpeningsOf(f.items)
  {
    if findings != [] {
      InBridged(findings[1..], opening);
      assert findings == [findings[0]] + findings[1..];
    }
  }

  /** An item is among the openings that bridge in some findings if and only if one of the bridges is of its opening. */
  lemma AmongBridged(item: Item, findings: seq<Finding>, dist: Metric)
    requires IsMetric(dist)
    ensures AmongOpenings(item, BridgedOpenings(findings)) <==> BridgesThere(item, findings, dist)
  {
    var openings := BridgedOpenings(findings);
    if AmongOpenings(item, openings) {
      var i :| 0 <= i < |openings| && Matches(item, openings[i]);
      InBridged(findings, openings[i]);
      var f :| f in findings && f.kind == MASK_BRIDGE && openings[i] in OpeningsOf(f.items);
      InOpenings(f.items, openings[i]);
      var other :| other in f.items && IsMaskOpening(other) && openings[i] == Opening(other.uuid, other.at);
      MatchMeans(item, other, dist);
      assert IsOpeningOf(other, f);
    }
    if f, other :|
      f in findings && f.kind == "solder_mask_bridge" && IsOpeningOf(other, f) && SameOpening(item, other, dist) {
      var opening := Opening(other.uuid, other.at);
      InOpenings(f.items, opening);
      InBridged(findings, opening);
      MatchMeans(item, other, dist);
      var i :| 0 <= i < |openings| && openings[i] == opening;
      assert Matches(item, openings[i]);
    }
  }

  lemma MatchMeans(item: Item, other: Item, dist: Metric)
    requires IsMetric(dist)
    ensures Matches(item, Opening(other.uuid, other.at)) <==> SameOpening(item, other, dist)
  {
    if item.at.Some? && other.at.Some? {
      NearMeans(item.at.value, other.at.value, dist);
    }
  }

  lemma OpeningsOfBoth(item: Item, openings: seq<Opening>, more: seq<Opening>)
    ensures AmongOpenings(item, openings + more) <==> AmongOpenings(item, openings) || AmongOpenings(item, more)
  {
    if AmongOpenings(item, openings) {
      var i :| 0 <= i < |openings| && Matches(item, openings[i]);
      assert (openings + more)[i] == openings[i];
    }
    if AmongOpenings(item, more) {
      var i :| 0 <= i < |more| && Matches(item, more[i]);
      assert (openings + more)[|openings| + i] == more[i];
    }
  }

  /** An opening, with a track or a zone beside it, that bridges already. */
  ghost predicate BridgedBefore(item: Item, other: Item, findings: seq<Finding>, dist: Metric) {
    && item.onMask && !StartsWithAny(item.description, {"Track", "Via", "Zone"})
    && StartsWithAny(other.description, {"Track", "Zone"})
    && BridgesThere(item, findings, dist)
  }

  /** A finding is the bridge of an opening that bridges already if and only if it is a mask bridge of two items, one a
      track or a zone, the other an opening that some mask bridge of the reference or of the designer is of. */
  lemma PrebridgedExactly(f: Finding, reference: seq<Finding>, designer: Option<seq<Finding>>, dist: Metric)
    requires IsMetric(dist)
    ensures Prebridged(f, OpeningsFor(reference, designer)) <==>
            && f.kind == "solder_mask_bridge" && |f.items| == 2
            && (BridgedBefore(f.items[0], f.items[1], reference, dist)
                || BridgedBefore(f.items[1], f.items[0], reference, dist)
                || (designer.Some? && BridgedBefore(f.items[0], f.items[1], designer.value, dist))
                || (designer.Some? && BridgedBefore(f.items[1], f.items[0], designer.value, dist)))
  {
    if |f.items| == 2 {
      forall i | 0 <= i < 2
        ensures AmongOpenings(f.items[i], OpeningsFor(reference, designer)) <==>
                || BridgesThere(f.items[i], reference, dist)
                || (designer.Some? && BridgesThere(f.items[i], designer.value, dist)) {
        OpeningsOfBoth(f.items[i], BridgedOpenings(reference), BridgedOpenings(designer.Or([])));
        AmongBridged(f.items[i], reference, dist);
        AmongBridged(f.items[i], designer.Or([]), dist);
      }
      assert f.items[0] == f.items[1 - 1] && f.items[1] == f.items[1 - 0];
    }
  }

  /** A mask bridge of two items, one a track or a zone, the other an opening with a uuid or a position. */
  predicate BridgesItself(f: Finding) {
    && f.kind == MASK_BRIDGE && |f.items| == 2
    && (TellsOpening(f.items[0], f.items[1]) || TellsOpening(f.items[1], f.items[0]))
  }

  predicate TellsOpening(item: Item, other: Item) {
    && IsMaskOpening(item) && (item.uuid.Some? || item.at.Some?)
    && (StartsWith(other.description, "Track") || StartsWith(other.description, "Zone"))
  }

  /** Among findings that it is one of, a bridge of an opening is one of an opening that bridges already, whatever the
      designer's, unless the opening cannot be told. */
  lemma BridgesAmongOwn(f: Finding, findings: seq<Finding>, designer: Option<seq<Finding>>)
    requires f in findings
    ensures Prebridged(f, OpeningsFor(findings, designer)) <==> BridgesItself(f)
  {
    if f.kind == MASK_BRIDGE {
      forall item | IsOpeningOf(item, f) && (item.uuid.Some? || item.at.Some?)
        ensures AmongOpenings(item, OpeningsFor(findings, designer)) {
        var opening, openings := Opening(item.uuid, item.at), BridgedOpenings(findings);
        InOpenings(f.items, opening);
        InBridged(findings, opening);
        if item.at.Some? {
          NearItself(item.at.value);
        }
        var i :| 0 <= i < |openings| && openings[i] == opening;
        assert Matches(item, openings[i]);
        OpeningsOfBoth(item, openings, BridgedOpenings(designer.Or([])));
      }
      if |f.items| == 2 {
        assert IsMaskOpening(f.items[0]) ==> IsOpeningOf(f.items[0], f);
        assert IsMaskOpening(f.items[1]) ==> IsOpeningOf(f.items[1], f);
        assert f.items[0] == f.items[1 - 1] && f.items[1] == f.items[1 - 0];
      }
    }
  }

  // --- What the verdicts guarantee ------------------------------------------------------

  /** Every finding falls in exactly one class: of each type the new, the preexisting and the mask openings
      are all of ours. */
  lemma {:induction false} NothingIsLost(ours: seq<Finding>, verdicts: seq<Verdict>, kind: string)
    requires |ours| == |verdicts|
    ensures Tally(ours, verdicts, kind, AsNew) + Tally(ours, verdicts, kind, AsPreexisting)
            + Tally(ours, verdicts, kind, AsMaskOpening)
            == CountKind(ours, kind)
  {
    if ours != [] {
      NothingIsLost(ours[1..], verdicts[1..], kind);
    }
  }

  /** A reference finding answers for at most one of ours, of its own type and at its place. */
  lemma {:induction false} AnswersOnce(ours: seq<Finding>, reference: seq<Finding>, openings: seq<Opening>,
                                       used: seq<bool>)
    requires |used| == |reference|
    ensures var verdicts := Judge(ours, reference, openings, used);
            && (forall k :: 0 <= k < |ours| && verdicts[k].Answered? ==>
                  && verdicts[k].index < |reference| && !used[verdicts[k].index]
                  && SamePlace(ours[k], reference[verdicts[k].index])
                  && Together(ours[k], reference[verdicts[k].index]))
            && (forall j, k :: 0 <= j < k < |ours| && verdicts[j].Answered? && verdicts[k].Answered? ==>
                  verdicts[j].index != verdicts[k].index)
  {
    if ours != [] {
      var v := VerdictOn(ours[0], reference, openings, used);
      if v.Answered? {
        SamePlaceMeans(ours[0], reference[v.index]);
      }
      AnswersOnce(ours[1..], reference, openings, Marked(used, v));
      var rest := Judge(ours[1..], reference, openings, Marked(used, v));
      forall k | 0 <= k < |ours[1..]| && rest[k].Answered?
        ensures rest[k].index < |reference| && !used[rest[k].index] && (v.Answered? ==> rest[k].index != v.index)
      {
        assert !Marked(used, v)[rest[k].index];
      }
      forall k | 0 < k < |ours| ensures ours[k] == ours[1..][k - 1] {
      }
    }
  }

  /** Judged against themselves, from index `from` on with no later one used, findings that know their place
      answer for themselves: the greedy step never looks past its own index. */
  lemma {:induction false} JudgedFrom(findings: seq<Finding>, openings: seq<Opening>, from: nat, used: seq<bool>)
    requires from <= |findings| == |used|
    requires forall k :: 0 <= k < |findings| ==> FootprintOwn(findings[k]) || SamePlace(findings[k], findings[k])
    requires forall k :: from <= k < |findings| ==> !used[k]
    ensures forall v :: v in Judge(findings[from..], findings, openings, used) ==> Falls(v, AsPreexisting)
    decreases |findings| - from
  {
    if from < |findings| {
      assert findings[from..][0] == findings[from] && findings[from..][1..] == findings[from + 1..];
      var v := VerdictOn(findings[from], findings, openings, used);
      if !FootprintOwn(findings[from]) {
        assert v.Answered? && v.index <= from;
      }
      JudgedFrom(findings, openings, from + 1, Marked(used, v));
    }
  }

  /** Judging findings against themselves gives none that is new, whatever the mask openings, when each is of
      one footprint or says where it is. */
  lemma JudgedAgainstThemselves(findings: seq<Finding>, openings: seq<Opening>)
    requires forall k :: 0 <= k < |findings| ==>
               FootprintOwn(findings[k]) || (findings[k].items != [] && KnowsItsPlace(Deciding(findings[k])))
    ensures forall v :: v in Judge(findings, findings, openings, NoneUsed(|findings|)) ==> Falls(v, AsPreexisting)
  {
    forall k | 0 <= k < |findings| ensures FootprintOwn(findings[k]) || SamePlace(findings[k], findings[k]) {
      AtItsOwnPlace(findings[k]);
    }
    JudgedFrom(findings, openings, 0, NoneUsed(|findings|));
    assert findings[0..] == findings;
  }

  /** The openings that findings are judged with against a reference and the designer's findings. */
  function OpeningsFor(reference: seq<Finding>, designer: Option<seq<Finding>>): seq<Opening> {
    BridgedOpenings(reference) + BridgedOpenings(designer.Or([]))
  }

  /** The verdicts on findings against themselves. */
  function JudgedThemselves(findings: seq<Finding>, designer: Option<seq<Finding>>): (verdicts: seq<Verdict>)
    ensures |verdicts| == |findings|
  {
    Judge(findings, findings, OpeningsFor(findings, designer), NoneUsed(|findings|))
  }

  predicate SaysWhere(f: Finding) { FootprintOwn(f) || (f.items != [] && KnowsItsPlace(Deciding(f))) }

  /** One finding alone is new against itself exactly when it is of no single footprint, does not say where it is,
      and is no bridge of an opening that can be told. */
  lemma JudgedAlone(f: Finding, designer: Option<seq<Finding>>)
    ensures Falls(JudgedThemselves([f], designer)[0], AsNew) <==> !SaysWhere(f) && !BridgesItself(f)
  {
    AtItsOwnPlace(f);
    BridgesAmongOwn(f, [f], designer);
    assert CountKind([f], f.kind) <= 1 by {
      assert [f][1..] == [];
    }
    assert NoneUsed(1) == [false];
    assert FirstAnswer(f, [f], [false], 1) == None;
  }

  /** Beside a clearance between pieces of the outline only, each of that type says where it is. */
  predicate OutlinesAnswerNone(findings: seq<Finding>) {
    forall j, k :: 0 <= j < |findings| && 0 <= k < |findings| && OutlineAlone(findings[k]) ==>
        SaysWhere(findings[j]) || findings[j].kind != findings[k].kind
  }

  /** Else one that does not say where it is can be at the place of that clearance: a zone at the origin, with the
      outline beside it. */
  lemma OutlineAnswers()
    ensures var edge := Item(None, Some(Point(9.0, 9.0)), "Segment on Edge.Cuts", "", None, false);
            var zone := Item(None, Some(Point(0.0, 0.0)), "Zone on F.Cu", "", None, false);
            var f := Finding("copper_edge_clearance", [zone, edge]);
            var g := Finding("copper_edge_clearance", [zone.(description := edge.description), edge]);
            !SaysWhere(f) && OutlineAlone(g) && SamePlace(f, g)
  {
    var edge := Item(None, Some(Point(9.0, 9.0)), "Segment on Edge.Cuts", "", None, false);
    var zone := Item(None, Some(Point(0.0, 0.0)), "Zone on F.Cu", "", None, false);
    var piece := zone.(description := edge.description);
    PieceAndZone(edge, zone, piece);
  }

  lemma PieceAndZone(edge: Item, zone: Item, piece: Item)
    requires OutlineItem(edge) && OutlineItem(piece) && !OutlineItem(zone) && ZoneItem(zone)
    requires zone.at == piece.at == Some(Point(0.0, 0.0)) && edge.at == Some(Point(9.0, 9.0))
    requires zone.owner.None?
    ensures var f, g := Finding("copper_edge_clearance", [zone, edge]), Finding("copper_edge_clearance", [piece, edge]);
            !SaysWhere(f) && OutlineAlone(g) && SamePlace(f, g)
  {
    var ours, theirs := [zone, edge], [piece, edge];
    assert ours[1..] == [edge] && theirs[1..] == [edge] && [edge][1..] == [];
    assert NoOutline([edge]) == [];
    assert NoOutline(ours) == [zone] + NoOutline([edge]) && NoOutline(theirs) == NoOutline([edge]);
    NearItself(zone.at.value);
    NearItself(edge.at.value);
    var used := NoneUsed(2);
    assert FirstNear(zone.at.value, theirs, used, 0) == Some(0);
    assert FirstNear(edge.at.value, theirs, used[0 := true], 0) == Some(1);
    assert AllNear([edge], theirs, used[0 := true]);
    assert AllNear(ours, theirs, used);
  }

  /** What keeps a finding that does not say where it is from being new. */
  predicate Excused(f: Finding, reference: seq<Finding>, openings: seq<Opening>) {
    CountKind(reference, f.kind) < KICAD_FINDING_CAP && Prebridged(f, openings)
  }

  /** A finding is preexisting exactly when it says where it is, and new exactly when it neither does nor is excused. */
  predicate IsRight(f: Finding, v: Verdict, excused: bool) {
    (Falls(v, AsPreexisting) <==> SaysWhere(f)) && (Falls(v, AsNew) <==> !SaysWhere(f) && !excused)
  }

  lemma {:induction false} JudgedFromExactly(findings: seq<Finding>, openings: seq<Opening>, from: nat, used: seq<bool>)
    requires from <= |findings| == |used| && OutlinesAnswerNone(findings)
    requires forall k :: from <= k < |findings| ==> !used[k]
    ensures forall k :: 0 <= k < |findings| - from ==>
              var f, v := findings[from + k], Judge(findings[from..], findings, openings, used)[k];
              IsRight(f, v, Excused(f, findings, openings))
    decreases |findings| - from
  {
    if from < |findings| {
      var f := findings[from];
      var v := VerdictOn(f, findings, openings, used);
      assert findings[from..][0] == f && findings[from..][1..] == findings[from + 1..];
      JudgedOnItself(findings, openings, from, used);
      JudgedFromExactly(findings, openings, from + 1, Marked(used, v));
      var rest := Judge(findings[from + 1..], findings, openings, Marked(used, v));
      assert Judge(findings[from..], findings, openings, used) == [v] + rest;
      forall k | 0 < k < |findings| - from
        ensures ([v] + rest)[k] == rest[k - 1] && findings[from + k] == findings[from + 1 + (k - 1)] {
      }
    }
  }

  lemma JudgedOnItself(findings: seq<Finding>, openings: seq<Opening>, i: nat, used: seq<bool>)
    requires i < |findings| == |used| && OutlinesAnswerNone(findings)
    requires forall k :: i <= k < |findings| ==> !used[k]
    ensures var f, v := findings[i], VerdictOn(findings[i], findings, openings, used);
            (v.Answered? ==> v.index <= i) && IsRight(f, v, Excused(f, findings, openings))
  {
    var f := findings[i];
    AtItsOwnPlace(f);
    if !SaysWhere(f) {
      forall k | 0 <= k < |findings| ensures !SamePlace(f, findings[k]) {
        PlacelessIsNowhere(f, findings[k]);
      }
    }
  }

  /** Findings judged against themselves: each is preexisting exactly when it is of one footprint or says where it
      is, and new exactly when neither holds and it is no bridge of an opening that can be told, of a type below the
      report's cap. */
  lemma JudgedAmongThemselves(findings: seq<Finding>, designer: Option<seq<Finding>>)
    requires OutlinesAnswerNone(findings)
    ensures forall k :: 0 <= k < |findings| ==>
              var f := findings[k];
              IsRight(f, JudgedThemselves(findings, designer)[k],
                      BridgesItself(f) && CountKind(findings, f.kind) < KICAD_FINDING_CAP)
  {
    var openings := OpeningsFor(findings, designer);
    JudgedFromExactly(findings, openings, 0, NoneUsed(|findings|));
    assert findings[0..] == findings;
    forall k | 0 <= k < |findings|
      ensures Excused(findings[k], findings, openings) <==>
              BridgesItself(findings[k]) && CountKind(findings, findings[k].kind) < KICAD_FINDING_CAP {
      BridgesAmongOwn(findings[k], findings, designer);
    }
  }

  // --- The counting loop ----------------------------------------------------------------

  function At(counts: map<string, nat>, kind: string): nat { if kind in counts then counts[kind] else 0 }

  lemma {:induction false} TallyOfConcat(a: seq<Finding>, va: seq<Verdict>, f: Finding, v: Verdict, kind: string,
                                         group: Class)
    requires |a| == |va|
    ensures Tally(a + [f], va + [v], kind, group)
            == Tally(a, va, kind, group) + (if f.kind == kind && Falls(v, group) then 1 else 0)
  {
    if a == [] {
      assert ([f])[1..] == [] && ([v])[1..] == [];
    } else {
      assert (a + [f])[1..] == a[1..] + [f] && (va + [v])[1..] == va[1..] + [v];
      TallyOfConcat(a[1..], va[1..], f, v, kind, group);
    }
  }

  /** What the findings are split into: per type the new and the preexisting ones, the types at the report's cap, and
      how many are mask openings. */
  datatype Split = Split(newOnes: map<string, nat>, preexisting: map<string, nat>, unknown: seq<string>, masked: nat)

  predicate IsCapped(ours: seq<Finding>, verdicts: seq<Verdict>, kind: string)
    requires |ours| == |verdicts|
  {
    exists k :: 0 <= k < |ours| && ours[k].kind == kind && verdicts[k].Capped?
  }

  /** The split has the verdicts' counts. */
  ghost predicate Counted(ours: seq<Finding>, verdicts: seq<Verdict>, split: Split)
    requires |ours| == |verdicts|
  {
    && (forall kind :: At(split.newOnes, kind) == Tally(ours, verdicts, kind, AsNew))
    && (forall kind :: At(split.preexisting, kind) == Tally(ours, verdicts, kind, AsPreexisting))
    && (forall kind :: kind in split.unknown <==> IsCapped(ours, verdicts, kind))
    && (forall i, j :: 0 <= i < j < |split.unknown| ==> split.unknown[i] != split.unknown[j])
    && split.masked == Tally(ours, verdicts, MASK_BRIDGE, AsMaskOpening)
  }

  function Bumped(counts: map<string, nat>, kind: string): map<string, nat> { counts[kind := At(counts, kind) + 1] }

  /** The split with one more verdict. */
  function WithVerdict(split: Split, f: Finding, v: Verdict): Split {
    match v
    case Own => split.(preexisting := Bumped(split.preexisting, f.kind))
    case Answered(_) => split.(preexisting := Bumped(split.preexisting, f.kind))
    case Capped =>
      split.(newOnes := Bumped(split.newOnes, f.kind),
             unknown := if f.kind in split.unknown then split.unknown else split.unknown + [f.kind])
    case MaskOpening => split.(masked := split.masked + 1)
    case New => split.(newOnes := Bumped(split.newOnes, f.kind))
  }

  lemma CappedOneMore(ours: seq<Finding>, verdicts: seq<Verdict>, f: Finding, v: Verdict, kind: string)
    requires |ours| == |verdicts|
    ensures IsCapped(ours + [f], verdicts + [v], kind) <==>
              IsCapped(ours, verdicts, kind) || (v.Capped? && f.kind == kind)
  {
    var n, ours', verdicts' := |ours|, ours + [f], verdicts + [v];
    if k :| 0 <= k < n && ours[k].kind == kind && verdicts[k].Capped? {
      assert ours'[k].kind == kind && verdicts'[k].Capped?;
    }
    assert ours'[n] == f && verdicts'[n] == v;
  }

  lemma CountsOneMore(ours: seq<Finding>, verdicts: seq<Verdict>, split: Split, f: Finding, v: Verdict)
    requires |ours| == |verdicts| && Counted(ours, verdicts, split) && (v.MaskOpening? ==> f.kind == MASK_BRIDGE)
    ensures Counted(ours + [f], verdicts + [v], WithVerdict(split, f, v))
  {
    forall kind, group
      ensures Tally(ours + [f], verdicts + [v], kind, group)
              == Tally(ours, verdicts, kind, group) + (if f.kind == kind && Falls(v, group) then 1 else 0) {
      TallyOfConcat(ours, verdicts, f, v, kind, group);
    }
    forall kind ensures kind in WithVerdict(split, f, v).unknown <==> IsCapped(ours + [f], verdicts + [v], kind) {
      CappedOneMore(ours, verdicts, f, v, kind);
    }
  }

  /** One finding's verdict, marking the reference finding that answers for it. */
  method JudgeOne(f: Finding, reference: seq<Finding>, openings: seq<Opening>, used: array<bool>) returns (v: Verdict)
    requires used.Length == |reference|
    modifies used
    ensures v == VerdictOn(f, reference, openings, old(used[..])) && used[..] == Marked(old(used[..]), v)
    ensures v.MaskOpening? ==> f.kind == MASK_BRIDGE
  {
    if FootprintOwn(f) {
      return Own;
    }
    var index := 0;
    while index < |reference|
      invariant 0 <= index <= |reference|
      invariant FirstAnswer(f, reference, used[..], 0) == FirstAnswer(f, reference, used[..], index)
    {
      if !used[index] && SamePlace(f, reference[index]) {
        used[index] := true;
        return Answered(index);
      }
      index := index + 1;
    }
    v := if CountKind(reference, f.kind) >= KICAD_FINDING_CAP then Capped
         else if Prebridged(f, openings) then MaskOpening
         else New;
  }

  /** The verdicts so far, and those that the marks still give, are all of them. */
  ghost predicate JudgedTo(ours: seq<Finding>, reference: seq<Finding>, openings: seq<Opening>, used: seq<bool>,
                           done: seq<Verdict>)
    requires |used| == |reference|
  {
    && |done| <= |ours|
    && done + Judge(ours[|done|..], reference, openings, used)
       == Judge(ours, reference, openings, NoneUsed(|reference|))
  }

  lemma JudgedOneMore(ours: seq<Finding>, reference: seq<Finding>, openings: seq<Opening>, used: seq<bool>,
                      done: seq<Verdict>)
    requires |used| == |reference| && |done| < |ours| && JudgedTo(ours, reference, openings, used, done)
    ensures var v := VerdictOn(ours[|done|], reference, openings, used);
            JudgedTo(ours, reference, openings, Marked(used, v), done + [v])
  {
    var n := |done|;
    var v := VerdictOn(ours[n], reference, openings, used);
    assert ours[n..][0] == ours[n] && ours[n..][1..] == ours[n + 1..];
    var rest := Judge(ours[n + 1..], reference, openings, Marked(used, v));
    assert done + ([v] + rest) == (done + [v]) + rest;
  }

  /** Our findings judged against the baseline's and the designer's (without a baseline, against none): the
      split has the verdicts' counts, and no finding is lost. */
  method StrictFindings(ours: seq<Finding>, baseline: Option<seq<Finding>>, designer: Option<seq<Finding>>)
    returns (split: Split)
    ensures var reference := baseline.Or([]);
            var openings := OpeningsFor(reference, if baseline.None? then None else designer);
            Counted(ours, Judge(ours, reference, openings, NoneUsed(|reference|)), split)
    ensures forall kind ::
              At(split.newOnes, kind) + At(split.preexisting, kind) + (if kind == MASK_BRIDGE then split.masked else 0)
              == CountKind(ours, kind)
  {
    var reference := baseline.Or([]);
    var openings := OpeningsFor(reference, if baseline.None? then None else designer);
    var used := new bool[|reference|](_ => false);
    assert used[..] == NoneUsed(|reference|);
    ghost var done: seq<Verdict> := [];
    split := Split(map[], map[], [], 0);
    assert ours[0..] == ours;
    for n := 0 to |ours|
      invariant |done| == n && JudgedTo(ours, reference, openings, used[..], done)
      invariant Counted(ours[..n], done, split)
    {
      JudgedOneMore(ours, reference, openings, used[..], done);
      var v := JudgeOne(ours[n], reference, openings, used);
      CountsOneMore(ours[..n], done, split, ours[n], v);
      assert ours[..n + 1] == ours[..n] + [ours[n]];
      split := WithVerdict(split, ours[n], v);
      done := done + [v];
    }
    assert ours[..|ours|] == ours && done + [] == done;
    Conserved(ours, reference, openings, done, split);
  }

  lemma Conserved(ours: seq<Finding>, reference: seq<Finding>, openings: seq<Opening>, verdicts: seq<Verdict>,
                  split: Split)
    requires verdicts == Judge(ours, reference, openings, NoneUsed(|reference|)) && Counted(ours, verdicts, split)
    ensures forall kind ::
              At(split.newOnes, kind) + At(split.preexisting, kind) + (if kind == MASK_BRIDGE then split.masked else 0)
              == CountKind(ours, kind)
  {
    forall kind
      ensures At(split.newOnes, kind) + At(split.preexisting, kind) + (if kind == MASK_BRIDGE then split.masked else 0)
              == CountKind(ours, kind) {
      NothingIsLost(ours, verdicts, kind);
      if kind != MASK_BRIDGE {
        OnlyBridgesAreMasked(ours, reference, openings, NoneUsed(|reference|), kind);
      }
    }
  }

  lemma {:induction false} OnlyBridgesAreMasked(ours: seq<Finding>, reference: seq<Finding>, openings: seq<Opening>,
                                                used: seq<bool>, kind: string)
    requires |used| == |reference| && kind != MASK_BRIDGE
    ensures Tally(ours, Judge(ours, reference, openings, used), kind, AsMaskOpening) == 0
  {
    if ours != [] {
      OnlyBridgesAreMasked(ours[1..], reference, openings, Marked(used, VerdictOn(ours[0], reference, openings, used)),
                           kind);
    }
  }
}
