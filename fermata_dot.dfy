/**
 * The fermata/dot correction pass: for every glyph of a system shaped as a
 * fermata, the dot-shaped glyphs whose boxes meet the fermata's box are tried
 * one by one; the first whose compound with the fermata the classifier
 * accepts is committed to the system as a new glyph carrying the classifier's
 * evaluation, and the pass reports how many compounds it committed.
 *
 * The classifier, the compound builder and the iteration order of the
 * candidate set are parameters (oracles). Glyphs are values held by the
 * system's registry; a glyph's shape is the shape of its evaluation.
 */
module FermataDot {
  import opened Wrappers
  import opened Shapes

  /** An integer rectangle: left, top, width and height. */
  datatype Rect = Rect(x: int, y: int, width: int, height: int)

  /** Two boxes intersect when both are non-empty and they overlap on both axes. */
  predicate Intersects(a: Rect, b: Rect) {
    && a.width > 0 && a.height > 0 && b.width > 0 && b.height > 0
    && b.x + b.width > a.x && b.y + b.height > a.y
    && a.x + a.width > b.x && a.y + a.height > b.y
  }

  /** A classification: a shape and its grade. */
  datatype Evaluation = Evaluation(shape: Shape, grade: real)

  /** A glyph of the system: its registry id, its bounding box and its current evaluation. */
  datatype Glyph = Glyph(id: nat, bounds: Rect, evaluation: Option<Evaluation>)

  function ShapeOf(g: Glyph): Option<Shape> {
    if g.evaluation.Some? then Some(g.evaluation.value.shape) else None
  }

  /** The shapes a dot may have been given. */
  const DOTS: seq<Shape> := [DotSet, AugmentationDot, Staccato]

  predicate IsAnchor(g: Glyph) {
    ShapeOf(g) == Some(Fermata) || ShapeOf(g) == Some(FermataBelow)
  }

  /** A glyph other than the anchor, whose box meets the anchor's box and whose shape is a dot's. */
  predicate IsCandidate(anchor: Glyph, g: Glyph) {
    && g.id != anchor.id
    && Intersects(g.bounds, anchor.bounds)
    && ShapeOf(g).Some? && ShapeOf(g).value in DOTS
  }

  /** The lookup of candidates among the system's glyphs. */
  function CandidatesIn(glyphs: seq<Glyph>, anchor: Glyph): seq<Glyph> {
    if glyphs == [] then []
    else CandidatesIn(glyphs[..|glyphs| - 1], anchor)
         + (if IsCandidate(anchor, glyphs[|glyphs| - 1]) then [glyphs[|glyphs| - 1]] else [])
  }

  /**
   * What the pass cannot see: the order in which the candidate set is
   * iterated, the transient compound the system builds from two glyphs, and
   * the classifier's vote on a compound (None when it finds no shape).
   */
  datatype Oracles = Oracles(
    order: seq<Glyph> -> seq<Glyph>,
    build: (Glyph, Glyph) -> Glyph,
    vote: Glyph -> Option<Evaluation>)

  /** The iteration order only rearranges the set it is given. */
  ghost predicate Rearranges(order: seq<Glyph> -> seq<Glyph>) {
    forall s :: multiset(order(s)) == multiset(s)
  }

  /** The candidates of an anchor in the order they are tried. */
  function Candidates(glyphs: seq<Glyph>, anchor: Glyph, oracles: Oracles): seq<Glyph> {
    oracles.order(CandidatesIn(glyphs, anchor))
  }

  /** The compound of the anchor with a candidate is accepted by the classifier. */
  predicate Accepted(anchor: Glyph, candidate: Glyph, oracles: Oracles) {
    oracles.vote(oracles.build(anchor, candidate)).Some?
  }

  /** The position of the first candidate whose compound with the anchor is accepted. */
  function FirstAccepted(anchor: Glyph, cands: seq<Glyph>, oracles: Oracles): (r: Option<nat>)
    ensures r.Some? ==> r.value < |cands| && Accepted(anchor, cands[r.value], oracles)
    ensures r.Some? ==> forall l :: 0 <= l < r.value ==> !Accepted(anchor, cands[l], oracles)
    ensures r.None? ==> forall l :: 0 <= l < |cands| ==> !Accepted(anchor, cands[l], oracles)
  {
    if cands == [] then None
    else if Accepted(anchor, cands[0], oracles) then Some(0)
    else match FirstAccepted(anchor, cands[1..], oracles)
      case None => None
      case Some(k) => Some(k + 1)
  }

  /** The compounds of the anchor with each of `cands`, in order. */
  function Compounds(anchor: Glyph, cands: seq<Glyph>, oracles: Oracles): (r: seq<Glyph>)
    ensures |r| == |cands|
  {
    seq(|cands|, k requires 0 <= k < |cands| => oracles.build(anchor, cands[k]))
  }

  /** The system's glyph registry: its glyphs and the next identity it hands out. */
  datatype Registry = Registry(glyphs: seq<Glyph>, nextId: nat)

  /**
   * Every registered identity is below the next one handed out, and no two
   * registered glyphs share an identity; on such a registry, inequality of
   * identities is inequality of glyphs.
   */
  ghost predicate WellFormed(r: Registry) {
    && (forall k :: 0 <= k < |r.glyphs| ==> r.glyphs[k].id < r.nextId)
    && (forall k, m :: 0 <= k < m < |r.glyphs| ==> r.glyphs[k].id != r.glyphs[m].id)
  }

  /** The registry after adding a compound and setting its evaluation. */
  function Commit(registry: Registry, compound: Glyph, e: Evaluation): Registry {
    Registry(registry.glyphs + [compound.(id := registry.nextId, evaluation := Some(e))], registry.nextId + 1)
  }

  /** The registry after a pass, the number of committed compounds, and the compounds given to the classifier. */
  datatype Outcome = Outcome(registry: Registry, count: nat, consulted: seq<Glyph>)

  /** What the pass does with one glyph of the snapshot. */
  function Step(registry: Registry, anchor: Glyph, oracles: Oracles): Outcome {
    if !IsAnchor(anchor) then Outcome(registry, 0, [])
    else
      var cands := Candidates(registry.glyphs, anchor, oracles);
      match FirstAccepted(anchor, cands, oracles)
      case None => Outcome(registry, 0, Compounds(anchor, cands, oracles))
      case Some(k) =>
        var compound := oracles.build(anchor, cands[k]);
        Outcome(Commit(registry, compound, oracles.vote(compound).value), 1, Compounds(anchor, cands[..k + 1], oracles))
  }

  /** The pass over the glyphs of the snapshot, in order. */
  function Pass(registry: Registry, snapshot: seq<Glyph>, oracles: Oracles): Outcome {
    if snapshot == [] then Outcome(registry, 0, [])
    else
      var before := Pass(registry, snapshot[..|snapshot| - 1], oracles);
      var step := Step(before.registry, snapshot[|snapshot| - 1], oracles);
      Outcome(step.registry, before.count + step.count, before.consulted + step.consulted)
  }

  /** The number of fermata-shaped glyphs. */
  function AnchorCount(glyphs: seq<Glyph>): nat {
    if glyphs == [] then 0
    else AnchorCount(glyphs[..|glyphs| - 1]) + (if IsAnchor(glyphs[|glyphs| - 1]) then 1 else 0)
  }

  // ----- Properties of the pass -----

  /** The lookup returns exactly the system's glyphs that are candidates for the anchor. */
  lemma {:induction false} CandidatesInExactly(glyphs: seq<Glyph>, anchor: Glyph)
    ensures forall g :: g in CandidatesIn(glyphs, anchor) <==> g in glyphs && IsCandidate(anchor, g)
  {
    if glyphs != [] {
      var p := glyphs[..|glyphs| - 1];
      CandidatesInExactly(p, anchor);
      assert glyphs == p + [glyphs[|glyphs| - 1]];
    }
  }

  /**
   * Every candidate tried for an anchor is another glyph of the system, whose
   * box meets the anchor's box and whose shape is a dot's; and every such
   * glyph is tried unless an earlier one is accepted.
   */
  lemma CandidatesAreDots(registry: Registry, anchor: Glyph, oracles: Oracles)
    requires Rearranges(oracles.order)
    ensures forall c :: c in Candidates(registry.glyphs, anchor, oracles) <==>
              && c in registry.glyphs
              && c.id != anchor.id
              && Intersects(c.bounds, anchor.bounds)
              && ShapeOf(c).Some? && ShapeOf(c).value in {DotSet, AugmentationDot, Staccato}
  {
    var found := CandidatesIn(registry.glyphs, anchor);
    CandidatesInExactly(registry.glyphs, anchor);
    assert multiset(oracles.order(found)) == multiset(found);
    forall c ensures c in oracles.order(found) <==> c in found {
      assert c in oracles.order(found) <==> c in multiset(oracles.order(found));
      assert c in found <==> c in multiset(found);
    }
  }

  /** A glyph that is not a fermata causes no commit and no call of the classifier. */
  lemma NonAnchorIgnored(registry: Registry, g: Glyph, oracles: Oracles)
    requires !IsAnchor(g)
    ensures Step(registry, g, oracles) == Outcome(registry, 0, [])
  {
  }

  /**
   * Greedy first match: for a fermata, a compound is committed exactly when
   * some candidate is accepted. The committed compound is the one with the
   * first accepted candidate; it carries the classifier's evaluation of it;
   * no candidate after it is given to the classifier. Without a commit the
   * registry is unchanged.
   */
  lemma StepCommitsFirstAccepted(registry: Registry, anchor: Glyph, oracles: Oracles)
    requires IsAnchor(anchor)
    ensures var cands, out := Candidates(registry.glyphs, anchor, oracles), Step(registry, anchor, oracles);
            && out.count <= 1
            && (out.count == 1 <==> exists l :: 0 <= l < |cands| && Accepted(anchor, cands[l], oracles))
            && (out.count == 0 ==> out.registry == registry && out.consulted == Compounds(anchor, cands, oracles))
            && (out.count == 1 ==>
                  exists k :: 0 <= k < |cands|
                    && Accepted(anchor, cands[k], oracles)
                    && (forall l :: 0 <= l < k ==> !Accepted(anchor, cands[l], oracles))
                    && out.consulted == Compounds(anchor, cands[..k + 1], oracles)
                    && var compound := oracles.build(anchor, cands[k]);
                       out.registry.glyphs == registry.glyphs
                         + [compound.(id := registry.nextId, evaluation := oracles.vote(compound))]
                       && out.registry.nextId == registry.nextId + 1)
  {
    var cands := Candidates(registry.glyphs, anchor, oracles);
    match FirstAccepted(anchor, cands, oracles)
    case None =>
    case Some(k) =>
      var compound := oracles.build(anchor, cands[k]);
      assert Some(oracles.vote(compound).value) == oracles.vote(compound);
  }

  /** One glyph of the snapshot adds at most one glyph, at the end, under the next identity and with an evaluation. */
  lemma StepGrowth(registry: Registry, g: Glyph, oracles: Oracles)
    ensures var out := Step(registry, g, oracles);
            && out.count <= (if IsAnchor(g) then 1 else 0)
            && |out.registry.glyphs| == |registry.glyphs| + out.count
            && out.registry.nextId == registry.nextId + out.count
            && out.registry.glyphs[..|registry.glyphs|] == registry.glyphs
            && (out.count == 1 ==> out.registry.glyphs[|registry.glyphs|].id == registry.nextId
                                   && out.registry.glyphs[|registry.glyphs|].evaluation.Some?)
  {
    var out := Step(registry, g, oracles);
    if out.count == 1 {
      assert out.registry.glyphs[..|registry.glyphs|] == registry.glyphs;
    }
  }

  /**
   * The count is the number of commits: the registry grows by one glyph per
   * commit, glyphs already registered are left alone, the committed glyphs
   * received consecutive identities from the registry's next one and an
   * evaluation, and there is at most one
   * commit per fermata of the snapshot.
   */
  lemma {:induction false} PassCounts(registry: Registry, snapshot: seq<Glyph>, oracles: Oracles)
    ensures var out := Pass(registry, snapshot, oracles);
            && out.count <= AnchorCount(snapshot)
            && |out.registry.glyphs| == |registry.glyphs| + out.count
            && out.registry.nextId == registry.nextId + out.count
            && out.registry.glyphs[..|registry.glyphs|] == registry.glyphs
            && forall k :: |registry.glyphs| <= k < |out.registry.glyphs| ==>
                 out.registry.glyphs[k].id == registry.nextId + (k - |registry.glyphs|)
                 && out.registry.glyphs[k].evaluation.Some?
  {
    if snapshot != [] {
      var prefix := snapshot[..|snapshot| - 1];
      var before := Pass(registry, prefix, oracles);
      PassCounts(registry, prefix, oracles);
      var g := snapshot[|snapshot| - 1];
      StepGrowth(before.registry, g, oracles);
      var out := Pass(registry, snapshot, oracles);
      assert out.registry == Step(before.registry, g, oracles).registry;
      forall k | |registry.glyphs| <= k < |out.registry.glyphs|
        ensures out.registry.glyphs[k].id == registry.nextId + (k - |registry.glyphs|)
        ensures out.registry.glyphs[k].evaluation.Some?
      {
        if k < |before.registry.glyphs| {
          assert out.registry.glyphs[k] == out.registry.glyphs[..|before.registry.glyphs|][k];
        }
      }
      assert out.registry.glyphs[..|registry.glyphs|]
             == out.registry.glyphs[..|before.registry.glyphs|][..|registry.glyphs|];
    }
  }

  /** The glyph is one of the compounds given to the classifier, under the evaluation the classifier returned for it. */
  ghost predicate VotedFrom(consulted: seq<Glyph>, glyph: Glyph, oracles: Oracles) {
    exists c :: c in consulted && oracles.vote(c).Some?
      && glyph == c.(id := glyph.id, evaluation := oracles.vote(c))
  }

  /** One glyph of the pass keeps the registry well formed. */
  lemma StepKeepsRegistryWellFormed(registry: Registry, g: Glyph, oracles: Oracles)
    requires WellFormed(registry)
    ensures WellFormed(Step(registry, g, oracles).registry)
  {
    StepGrowth(registry, g, oracles);
  }

  /**
   * Starting from a well-formed registry, the pass keeps it well formed, and
   * every glyph it adds has an identity that no glyph registered before the
   * pass has.
   */
  lemma {:induction false} PassKeepsRegistryWellFormed(registry: Registry, snapshot: seq<Glyph>, oracles: Oracles)
    requires WellFormed(registry)
    ensures WellFormed(Pass(registry, snapshot, oracles).registry)
    ensures var out := Pass(registry, snapshot, oracles);
            forall k, m :: 0 <= m < |registry.glyphs| <= k < |out.registry.glyphs| ==>
              out.registry.glyphs[k].id != registry.glyphs[m].id
  {
    if snapshot != [] {
      var prefix := snapshot[..|snapshot| - 1];
      PassKeepsRegistryWellFormed(registry, prefix, oracles);
      StepKeepsRegistryWellFormed(Pass(registry, prefix, oracles).registry, snapshot[|snapshot| - 1], oracles);
    }
    var out := Pass(registry, snapshot, oracles);
    PassCounts(registry, snapshot, oracles);
    forall k, m | 0 <= m < |registry.glyphs| <= k < |out.registry.glyphs|
      ensures out.registry.glyphs[k].id != registry.glyphs[m].id
    {
      assert registry.glyphs[m] == out.registry.glyphs[..|registry.glyphs|][m];
    }
  }

  /** Each committed glyph is a compound given to the classifier, carrying exactly the evaluation the classifier returned for it. */
  lemma {:induction false} CommittedAsVoted(registry: Registry, snapshot: seq<Glyph>, oracles: Oracles)
    ensures var out := Pass(registry, snapshot, oracles);
            forall k :: |registry.glyphs| <= k < |out.registry.glyphs| ==>
              VotedFrom(out.consulted, out.registry.glyphs[k], oracles)
  {
    if snapshot != [] {
      var prefix := snapshot[..|snapshot| - 1];
      var before := Pass(registry, prefix, oracles);
      CommittedAsVoted(registry, prefix, oracles);
      PassCounts(registry, prefix, oracles);
      var g := snapshot[|snapshot| - 1];
      var step := Step(before.registry, g, oracles);
      StepGrowth(before.registry, g, oracles);
      var out := Pass(registry, snapshot, oracles);
      assert out.registry == step.registry && out.consulted == before.consulted + step.consulted;
      forall m | |registry.glyphs| <= m < |out.registry.glyphs|
        ensures VotedFrom(out.consulted, out.registry.glyphs[m], oracles)
      {
        if m < |before.registry.glyphs| {
          assert out.registry.glyphs[m] == out.registry.glyphs[..|before.registry.glyphs|][m];
          assert VotedFrom(before.consulted, before.registry.glyphs[m], oracles);
          var c :| c in before.consulted && oracles.vote(c).Some?
            && before.registry.glyphs[m] == c.(id := before.registry.glyphs[m].id, evaluation := oracles.vote(c));
          assert c in out.consulted;
        } else {
          assert step.count == 1 && IsAnchor(g) && m == |before.registry.glyphs|;
          var cands := Candidates(before.registry.glyphs, g, oracles);
          var k := FirstAccepted(g, cands, oracles).value;
          var compound := oracles.build(g, cands[k]);
          assert step.consulted == Compounds(g, cands[..k + 1], oracles);
          assert step.consulted[k] == compound;
          assert compound in out.consulted;
          assert out.registry.glyphs == before.registry.glyphs
                 + [compound.(id := before.registry.nextId, evaluation := Some(oracles.vote(compound).value))];
          assert out.registry.glyphs[m] == compound.(id := out.registry.glyphs[m].id, evaluation := oracles.vote(compound));
        }
      }
    }
  }

  /** A classifier that accepts nothing leaves the system as it was, and the pass returns 0. */
  lemma {:induction false} NothingAcceptedNothingCommitted(registry: Registry, snapshot: seq<Glyph>, oracles: Oracles)
    requires forall c :: oracles.vote(c).None?
    ensures Pass(registry, snapshot, oracles).registry == registry
    ensures Pass(registry, snapshot, oracles).count == 0
  {
    if snapshot != [] {
      NothingAcceptedNothingCommitted(registry, snapshot[..|snapshot| - 1], oracles);
    }
  }

  /** The glyphs of one system, as its registry holds them. */
  class SystemInfo {
    var glyphs: seq<Glyph>
    var nextId: nat

    constructor (glyphs: seq<Glyph>, nextId: nat)
      ensures this.glyphs == glyphs && this.nextId == nextId
    {
      this.glyphs := glyphs;
      this.nextId := nextId;
    }

    function State(): Registry
      reads this
    {
      Registry(glyphs, nextId)
    }

    /** Registers a compound under a new identity and returns its position in the registry. */
    method AddGlyph(compound: Glyph) returns (k: nat)
      modifies this
      ensures glyphs == old(glyphs) + [compound.(id := old(nextId))]
      ensures nextId == old(nextId) + 1
      ensures k == |old(glyphs)|
    {
      k := |glyphs|;
      glyphs := glyphs + [compound.(id := nextId)];
      nextId := nextId + 1;
    }

    /** Sets the evaluation of the registered glyph at position `k`. */
    method SetEvaluation(k: nat, e: Evaluation)
      requires k < |glyphs|
      modifies this
      ensures glyphs == old(glyphs)[k := old(glyphs)[k].(evaluation := Some(e))]
      ensures nextId == old(nextId)
    {
      glyphs := glyphs[k := glyphs[k].(evaluation := Some(e))];
    }
  }

  class FermataDotPattern {
    const system: SystemInfo

    constructor (system: SystemInfo)
      ensures this.system == system
    {
      this.system := system;
    }

    /**
     * Runs the pass over a snapshot of the system's glyphs (the candidates of
     * each anchor are looked up in the current registry) and returns the number
     * of compounds committed. `consulted` records every compound given to the
     * classifier. The outcome is a function of the initial registry and the
     * oracles alone.
     */
    method RunPattern(oracles: Oracles) returns (nb: nat, ghost consulted: seq<Glyph>)
      modifies system
      ensures Outcome(system.State(), nb, consulted) == Pass(old(system.State()), old(system.glyphs), oracles)
      ensures WellFormed(old(system.State())) ==> WellFormed(system.State())
    {
      nb, consulted := 0, [];
      var snapshot := system.glyphs;
      ghost var initial := system.State();
      var i := 0;
      while i < |snapshot|
        invariant 0 <= i <= |snapshot|
        invariant Outcome(system.State(), nb, consulted) == Pass(initial, snapshot[..i], oracles)
      {
        assert snapshot[..i + 1][..i] == snapshot[..i];
        var n, tried := CheckFermata(snapshot[i], oracles);
        nb, consulted := nb + n, consulted + tried;
        i := i + 1;
      }
      assert snapshot[..|snapshot|] == snapshot;
      if WellFormed(initial) {
        PassKeepsRegistryWellFormed(initial, snapshot, oracles);
      }
    }

    /**
     * One turn of the outer loop: a glyph that is not a fermata is skipped;
     * for a fermata the candidates are tried in order until the first accepted
     * compound, which is committed.
     */
    method CheckFermata(fermata: Glyph, oracles: Oracles) returns (n: nat, ghost tried: seq<Glyph>)
      modifies system
      ensures Outcome(system.State(), n, tried) == Step(old(system.State()), fermata, oracles)
    {
      n, tried := 0, [];
      if !IsAnchor(fermata) {
        return;
      }
      var candidates := Candidates(system.glyphs, fermata, oracles);
      var j := 0;
      while j < |candidates|
        invariant 0 <= j <= |candidates|
        invariant system.State() == old(system.State())
        invariant tried == Compounds(fermata, candidates[..j], oracles)
        invariant forall l :: 0 <= l < j ==> !Accepted(fermata, candidates[l], oracles)
      {
        var compound := oracles.build(fermata, candidates[j]);
        var eval := oracles.vote(compound);
        tried := tried + [compound];
        assert tried == Compounds(fermata, candidates[..j + 1], oracles);
        if eval.Some? {
          var k := system.AddGlyph(compound);
          system.SetEvaluation(k, eval.value);
          n := 1;
          assert FirstAccepted(fermata, candidates, oracles) == Some(j);
          assert system.glyphs == old(system.glyphs) + [compound.(id := old(system.nextId), evaluation := Some(eval.value))];
          return;
        }
        j := j + 1;
      }
      assert candidates[..|candidates|] == candidates;
    }
  }
}
