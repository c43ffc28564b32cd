/**
 * Preparation of a training population for an evaluation engine, and the
 * panel state that drives it: which base is used (core or whole) and whether
 * the train action is enabled.
 *
 * Preparation has two steps that only drop samples: resolving sample names
 * to glyphs, then checking each glyph's physical shape. Each dropped sample
 * leaves one warning; the check also warns once for every physical-shape
 * ordinal no surviving glyph covers.
 */
module Training {
  import opened Wrappers
  import opened Shapes
  import opened Sifting

  type Name = string

  /** A recorded sample as the repository returns it; its shape may be unknown. */
  datatype Glyph = Glyph(id: nat, shape: Option<Shape>)

  /**
   * The shape vocabulary as training sees it: each shape's ordinal in the
   * enumeration, the ordinal of LAST_PHYSICAL_SHAPE, each shape's physical
   * shape (None where asking for it fails) and which shapes are trainable.
   */
  datatype Vocabulary = Vocabulary(
    ordinal: Shape -> nat,
    lastPhysical: nat,
    physical: Shape -> Option<Shape>,
    isTrainable: Shape -> bool)

  /** The warnings logged while preparing a population. */
  datatype Warning =
    | CannotGetGlyph(name: Name)
    | CannotInferShape(name: Name)
    | NonTrainableShape(physical: Shape)
    | WeirdShape(shape: Option<Shape>)
    | MissingShape(ordinal: nat)

  // ----- Step 1: resolving sample names -----

  /** A name is kept as its glyph when the repository has the glyph and the glyph has a shape. */
  function Resolution(repository: Name -> Option<Glyph>, name: Name): Verdict<Glyph, Warning> {
    match repository(name)
    case None => Drop(CannotGetGlyph(name))
    case Some(g) => if g.shape.Some? then Keep(g) else Drop(CannotInferShape(name))
  }

  function ResolveBy(repository: Name -> Option<Glyph>): Name -> Verdict<Glyph, Warning> {
    name => Resolution(repository, name)
  }

  /** The loop of the train action that builds the glyph list from the selected names. */
  method ResolveSamples(names: seq<Name>, repository: Name -> Option<Glyph>)
    returns (glyphs: seq<Glyph>, warnings: seq<Warning>)
    ensures glyphs == Kept(names, ResolveBy(repository))
    ensures warnings == Dropped(names, ResolveBy(repository))
  {
    glyphs, warnings := [], [];
    var i := 0;
    while i < |names|
      invariant 0 <= i <= |names|
      invariant glyphs == Kept(names[..i], ResolveBy(repository))
      invariant warnings == Dropped(names[..i], ResolveBy(repository))
    {
      var name := names[i];
      var glyph := repository(name);
      if glyph.Some? {
        if glyph.value.shape.Some? {
          glyphs := glyphs + [glyph.value];
        } else {
          warnings := warnings + [CannotInferShape(name)];
        }
      } else {
        warnings := warnings + [CannotGetGlyph(name)];
      }
      assert names[..i + 1][..i] == names[..i];
      i := i + 1;
    }
    assert names[..|names|] == names;
  }

  /** Exactly the names that resolve to a glyph with a shape are kept, in order, and every other name leaves its one warning. */
  lemma ResolutionExactly(names: seq<Name>, repository: Name -> Option<Glyph>)
    ensures var kept, at := Kept(names, ResolveBy(repository)), KeptAt(names, ResolveBy(repository));
            |at| == |kept| && Increasing(at)
            && (forall k :: 0 <= k < |at| ==> at[k] < |names| && repository(names[at[k]]) == Some(kept[k]))
            && (forall i :: 0 <= i < |names| ==>
                  (i in at <==> repository(names[i]).Some? && repository(names[i]).value.shape.Some?))
            && (forall g :: g in kept ==> g.shape.Some?)
    ensures var dropped, at := Dropped(names, ResolveBy(repository)), DroppedAt(names, ResolveBy(repository));
            |at| == |dropped| && Increasing(at)
            && (forall i :: 0 <= i < |names| ==>
                  (i in at <==> !(repository(names[i]).Some? && repository(names[i]).value.shape.Some?)))
            && forall k :: 0 <= k < |at| ==>
                 (at[k] < |names| &&
                  dropped[k] == if repository(names[at[k]]).None? then CannotGetGlyph(names[at[k]])
                                else CannotInferShape(names[at[k]]))
    ensures |Kept(names, ResolveBy(repository))| + |Dropped(names, ResolveBy(repository))| == |names|
  {
    var f := ResolveBy(repository);
    KeptAtSpec(names, f);
    DroppedAtSpec(names, f);
    SiftAccounting(names, f);
    forall g: Glyph | g in Kept(names, f) ensures g.shape.Some? {
      KeptMembers(names, f, g);
    }
  }

  // ----- Step 2: checking the population -----

  /**
   * The check of one glyph. A missing shape, a physical shape that cannot be
   * found, and a trainable physical shape whose ordinal lies past
   * LAST_PHYSICAL_SHAPE (the array store fails) all raise inside the guarded
   * block and drop the glyph as weird.
   */
  function Check(vocabulary: Vocabulary, g: Glyph): Verdict<Glyph, Warning> {
    match g.shape
    case None => Drop(WeirdShape(None))
    case Some(s) =>
      match vocabulary.physical(s)
      case None => Drop(WeirdShape(Some(s)))
      case Some(p) =>
        if !vocabulary.isTrainable(p) then Drop(NonTrainableShape(p))
        else if vocabulary.ordinal(p) <= vocabulary.lastPhysical then Keep(g)
        else Drop(WeirdShape(Some(s)))
  }

  function CheckBy(vocabulary: Vocabulary): Glyph -> Verdict<Glyph, Warning> {
    g => Check(vocabulary, g)
  }

  /** A glyph fit for training: its physical shape is known, trainable, and within the physical range. */
  predicate Survives(vocabulary: Vocabulary, g: Glyph) {
    && g.shape.Some?
    && vocabulary.physical(g.shape.value).Some?
    && vocabulary.isTrainable(vocabulary.physical(g.shape.value).value)
    && vocabulary.ordinal(vocabulary.physical(g.shape.value).value) <= vocabulary.lastPhysical
  }

  /** The ordinal of a glyph's physical shape, when that shape is known. */
  function PhysicalOrdinal(vocabulary: Vocabulary, g: Glyph): Option<nat> {
    if g.shape.Some? && vocabulary.physical(g.shape.value).Some?
    then Some(vocabulary.ordinal(vocabulary.physical(g.shape.value).value))
    else None
  }

  /** Some glyph of `kept` has a physical shape of ordinal `o`. */
  predicate Covers(vocabulary: Vocabulary, kept: seq<Glyph>, o: nat) {
    exists k :: 0 <= k < |kept| && PhysicalOrdinal(vocabulary, kept[k]) == Some(o)
  }

  /** One warning per ordinal below `n` that `kept` does not cover, ascending. */
  function Missing(vocabulary: Vocabulary, kept: seq<Glyph>, n: nat): seq<Warning> {
    if n == 0 then []
    else Missing(vocabulary, kept, n - 1) + (if Covers(vocabulary, kept, n - 1) then [] else [MissingShape(n - 1)])
  }

  /**
   * Removes from the list every glyph whose physical shape is not trainable,
   * cannot be determined, or is trainable with an ordinal past
   * LAST_PHYSICAL_SHAPE, then warns for every physical ordinal left uncovered.
   * The list is returned filtered rather than updated through its iterator.
   */
  method CheckPopulation(vocabulary: Vocabulary, glyphs: seq<Glyph>)
    returns (kept: seq<Glyph>, warnings: seq<Warning>)
    ensures kept == Kept(glyphs, CheckBy(vocabulary))
    ensures warnings == Dropped(glyphs, CheckBy(vocabulary)) + Missing(vocabulary, kept, vocabulary.lastPhysical + 1)
  {
    var present := new bool[vocabulary.lastPhysical + 1](_ => false);
    kept, warnings := [], [];
    var i := 0;
    while i < |glyphs|
      invariant 0 <= i <= |glyphs|
      invariant kept == Kept(glyphs[..i], CheckBy(vocabulary))
      invariant warnings == Dropped(glyphs[..i], CheckBy(vocabulary))
      invariant forall o :: 0 <= o < present.Length ==> (present[o] <==> Covers(vocabulary, kept, o))
    {
      var g := glyphs[i];
      ghost var before := kept;
      match g.shape {
        case None =>
          warnings := warnings + [WeirdShape(None)];
        case Some(s) =>
          match vocabulary.physical(s) {
            case None =>
              warnings := warnings + [WeirdShape(Some(s))];
            case Some(p) =>
              if vocabulary.isTrainable(p) {
                var o := vocabulary.ordinal(p);
                if o < present.Length {
                  present[o] := true;
                  kept := kept + [g];
                  CoversAppend(vocabulary, before, g);
                } else {
                  warnings := warnings + [WeirdShape(Some(s))];
                }
              } else {
                warnings := warnings + [NonTrainableShape(p)];
              }
          }
      }
      assert glyphs[..i + 1][..i] == glyphs[..i];
      i := i + 1;
    }
    assert glyphs[..|glyphs|] == glyphs;
    var o := 0;
    while o < present.Length
      invariant 0 <= o <= present.Length
      invariant forall m :: 0 <= m < present.Length ==> (present[m] <==> Covers(vocabulary, kept, m))
      invariant warnings == Dropped(glyphs, CheckBy(vocabulary)) + Missing(vocabulary, kept, o)
    {
      if !present[o] {
        warnings := warnings + [MissingShape(o)];
      }
      o := o + 1;
    }
  }

  lemma CoversAppend(vocabulary: Vocabulary, kept: seq<Glyph>, g: Glyph)
    ensures forall o: nat :: Covers(vocabulary, kept + [g], o) <==> Covers(vocabulary, kept, o) || PhysicalOrdinal(vocabulary, g) == Some(o)
  {
    forall o: nat ensures Covers(vocabulary, kept + [g], o) <==> Covers(vocabulary, kept, o) || PhysicalOrdinal(vocabulary, g) == Some(o) {
      if Covers(vocabulary, kept, o) {
        var k :| 0 <= k < |kept| && PhysicalOrdinal(vocabulary, kept[k]) == Some(o);
        assert (kept + [g])[k] == kept[k];
      }
      if PhysicalOrdinal(vocabulary, g) == Some(o) {
        assert (kept + [g])[|kept|] == g;
      }
    }
  }

  /** The warning a glyph that does not survive the check gets: non-trainable when its physical shape is known but not trainable, weird otherwise. */
  function DropReason(vocabulary: Vocabulary, g: Glyph): Warning {
    if g.shape.Some? && vocabulary.physical(g.shape.value).Some?
       && !vocabulary.isTrainable(vocabulary.physical(g.shape.value).value)
    then NonTrainableShape(vocabulary.physical(g.shape.value).value)
    else WeirdShape(g.shape)
  }

  /** The check keeps a glyph, unchanged, exactly when it survives, and otherwise drops it for its one reason. */
  lemma CheckVerdict(vocabulary: Vocabulary, g: Glyph)
    ensures Check(vocabulary, g).Keep? <==> Survives(vocabulary, g)
    ensures Check(vocabulary, g).Keep? ==> Check(vocabulary, g).kept == g
    ensures Check(vocabulary, g).Drop? ==> Check(vocabulary, g).warning == DropReason(vocabulary, g)
  {
  }

  /**
   * The check only removes: the survivors are a subsequence of the input, a
   * glyph survives exactly when its physical shape is known, trainable and in
   * range, and each removed glyph leaves exactly one warning giving its reason.
   */
  lemma CheckOnlyRemoves(vocabulary: Vocabulary, glyphs: seq<Glyph>)
    ensures IsSubsequence(Kept(glyphs, CheckBy(vocabulary)), glyphs)
    ensures forall g :: g in Kept(glyphs, CheckBy(vocabulary)) ==> Survives(vocabulary, g)
    ensures forall i :: 0 <= i < |glyphs| ==>
              (i in KeptAt(glyphs, CheckBy(vocabulary)) <==> Survives(vocabulary, glyphs[i]))
    ensures var dropped, at := Dropped(glyphs, CheckBy(vocabulary)), DroppedAt(glyphs, CheckBy(vocabulary));
            |at| == |dropped| && Increasing(at)
            && forall k :: 0 <= k < |at| ==>
                 (at[k] < |glyphs| && !Survives(vocabulary, glyphs[at[k]])
                  && dropped[k] == DropReason(vocabulary, glyphs[at[k]]))
    ensures |Kept(glyphs, CheckBy(vocabulary))| + |Dropped(glyphs, CheckBy(vocabulary))| == |glyphs|
  {
    var f := CheckBy(vocabulary);
    KeptIsSubsequence(glyphs, f);
    KeptAtSpec(glyphs, f);
    DroppedAtSpec(glyphs, f);
    SiftAccounting(glyphs, f);
    forall g: Glyph | g in Kept(glyphs, f) ensures Survives(vocabulary, g) {
      KeptMembers(glyphs, f, g);
      var i :| 0 <= i < |glyphs| && f(glyphs[i]) == Keep(g);
      CheckVerdict(vocabulary, glyphs[i]);
    }
  }

  /** The coverage warnings name exactly the ordinals below `n` that no kept glyph covers, each once and in ascending order. */
  lemma {:induction false} MissingExactly(vocabulary: Vocabulary, kept: seq<Glyph>, n: nat)
    ensures |Missing(vocabulary, kept, n)| <= n
    ensures forall k :: 0 <= k < |Missing(vocabulary, kept, n)| ==>
              Missing(vocabulary, kept, n)[k].MissingShape? && Missing(vocabulary, kept, n)[k].ordinal < n
    ensures forall k, m :: 0 <= k < m < |Missing(vocabulary, kept, n)| ==>
              Missing(vocabulary, kept, n)[k].ordinal < Missing(vocabulary, kept, n)[m].ordinal
    ensures forall o: nat :: MissingShape(o) in Missing(vocabulary, kept, n) <==> o < n && !Covers(vocabulary, kept, o)
  {
    if n > 0 {
      MissingExactly(vocabulary, kept, n - 1);
    }
  }

  /**
   * Every ordinal up to LAST_PHYSICAL_SHAPE is checked for coverage, not only
   * trainable ones: an ordinal whose shapes are all non-trainable can never be
   * covered, so it is always reported missing.
   */
  lemma NonTrainableAlwaysMissing(vocabulary: Vocabulary, glyphs: seq<Glyph>, o: nat)
    requires o <= vocabulary.lastPhysical
    requires forall s :: vocabulary.ordinal(s) == o ==> !vocabulary.isTrainable(s)
    ensures MissingShape(o) in Missing(vocabulary, Kept(glyphs, CheckBy(vocabulary)), vocabulary.lastPhysical + 1)
  {
    var kept := Kept(glyphs, CheckBy(vocabulary));
    CheckOnlyRemoves(vocabulary, glyphs);
    MissingExactly(vocabulary, kept, vocabulary.lastPhysical + 1);
  }

  /**
   * Both steps together: the prepared population is a subsequence of the
   * resolved glyphs, every member of it is fit for training, and every
   * selected name ends up either in the population or behind exactly one
   * drop warning.
   */
  lemma PreparationAccounting(names: seq<Name>, repository: Name -> Option<Glyph>, vocabulary: Vocabulary)
    ensures var resolved := Kept(names, ResolveBy(repository));
            var population := Kept(resolved, CheckBy(vocabulary));
            && IsSubsequence(population, resolved)
            && (forall g :: g in population ==> Survives(vocabulary, g))
            && |population| + |Dropped(names, ResolveBy(repository))| + |Dropped(resolved, CheckBy(vocabulary))| == |names|
  {
    ResolutionExactly(names, repository);
    CheckOnlyRemoves(vocabulary, Kept(names, ResolveBy(repository)));
  }

  // ----- The panel -----

  /** What the training task is doing. */
  datatype Activity = Inactive | Selecting | Training

  /** The training task observed by the panel (the trainer's task class is not part of this model). */
  class Task {
    var activity: Activity

    constructor (activity: Activity)
      ensures this.activity == activity
    {
      this.activity := activity;
    }
  }

  class TrainingPanel {
    const task: Task
    const vocabulary: Vocabulary
    /** Whether the whole glyph base, rather than only the core base, is used. */
    var useWhole: bool
    /** Whether the train action is enabled. */
    var trainEnabled: bool
    /** The warnings logged so far. */
    var log: seq<Warning>

    /** The layout selects the core base and then the whole base, so the panel starts on the whole base. */
    constructor (task: Task, vocabulary: Vocabulary)
      ensures this.task == task && this.vocabulary == vocabulary
      ensures useWhole && trainEnabled && log == []
    {
      this.task := task;
      this.vocabulary := vocabulary;
      useWhole := true;
      // The train action is created by the concrete panels; an action starts enabled.
      trainEnabled := true;
      log := [];
      new;
      DefineLayout();
    }

    method DefineLayout()
      modifies this`useWhole
      ensures useWhole
    {
      SelectCore();
      SelectWhole();
    }

    /** The core action: only the core base is used. */
    method SelectCore()
      modifies this`useWhole
      ensures !useWhole
    {
      useWhole := false;
    }

    /** The whole action: the whole base is used. */
    method SelectWhole()
      modifies this`useWhole
      ensures useWhole
    {
      useWhole := true;
    }

    /** Reaction to a new task activity: the train action is enabled only while nothing is going on. */
    method Update()
      modifies this`trainEnabled
      ensures trainEnabled <==> task.activity == Inactive
    {
      match task.activity {
        case Inactive =>
          trainEnabled := true;
        case Selecting =>
          trainEnabled := false;
        case Training =>
          trainEnabled := false;
      }
    }

    /**
     * The train action's work: with the task marked as training, the names of
     * the selected base are resolved and checked, and the resulting population
     * is what the engine is trained on; the task is then inactive again.
     */
    method Train(base: bool -> seq<Name>, repository: Name -> Option<Glyph>) returns (population: seq<Glyph>)
      modifies this`log, task
      ensures var resolved := Kept(base(useWhole), ResolveBy(repository));
              && population == Kept(resolved, CheckBy(vocabulary))
              && log == old(log) + Dropped(base(useWhole), ResolveBy(repository))
                        + Dropped(resolved, CheckBy(vocabulary))
                        + Missing(vocabulary, population, vocabulary.lastPhysical + 1)
      ensures task.activity == Inactive
    {
      task.activity := Training;
      var names := base(useWhole);
      var glyphs, resolveWarnings := ResolveSamples(names, repository);
      log := log + resolveWarnings;
      var checkWarnings;
      population, checkWarnings := CheckPopulation(vocabulary, glyphs);
      log := log + checkWarnings;
      task.activity := Inactive;
    }
  }
}
