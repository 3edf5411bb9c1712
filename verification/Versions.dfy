/** Version numbers: exactly when they increase strictly along a line, in stored order. */
module Versions {
  import opened Text
  import opened Records
  import opened Resolution
  import opened Lifecycle
  import opened Timeline

  ghost predicate VersionsRise(recs: seq<Rec>) {
    forall i, j :: 0 <= i < j < |recs| && SameLine(recs[i], recs[j]) ==> recs[i].version < recs[j].version
  }

  /** The new record's number is above all those of its line. */
  ghost predicate Tops(recs: seq<Rec>, next: Rec) {
    forall j :: 0 <= j < |recs| && SameLine(recs[j], next) ==> recs[j].version < next.version
  }

  /** A creation, which starts at version 1, finds its line empty of such numbers; an update's next
      version, one above the current one, is above all of the line it enters. */
  ghost predicate NumbersOn(reg: Registry, s: State, op: Op, now: int) {
    Apply(reg, s, op, now).Ok? ==>
      match op
      case CreateOp(a) =>
        Tops(s.recs, CreatedRecord(a, reg[Normalize(a.masterType)].requiresApproval && !a.force, now))
      case UpdateOp(a) =>
        var mt := Normalize(a.masterType);
        var i := Current(s, mt, a.code, now, a.tenant).value;
        Tops(s.recs, NextVersion(a, s.recs[i], reg[mt].requiresApproval && !a.force, now))
      case _ => true
  }

  /** Line and number of a record. */
  predicate SamePlace(r: Rec, r': Rec) {
    r'.masterType == r.masterType && r'.code == r.code && r'.tenant == r.tenant && r'.version == r.version
  }

  ghost predicate KeepsPlaces(recs: seq<Rec>, recs': seq<Rec>) {
    |recs| <= |recs'| && forall i :: 0 <= i < |recs| ==> SamePlace(recs[i], recs'[i])
  }

  lemma SamePlacesRise(recs: seq<Rec>, recs': seq<Rec>)
    requires |recs| == |recs'| && KeepsPlaces(recs, recs')
    ensures VersionsRise(recs) <==> VersionsRise(recs')
  {
    forall i, j | 0 <= i < j < |recs| ensures SameLine(recs[i], recs[j]) == SameLine(recs'[i], recs'[j]) {
      assert SamePlace(recs[i], recs'[i]) && SamePlace(recs[j], recs'[j]);
    }
  }

  lemma AppendRisesExactlyWhen(recs: seq<Rec>, next: Rec)
    requires VersionsRise(recs)
    ensures VersionsRise(recs + [next]) <==> Tops(recs, next)
  {
    var recs' := recs + [next];
    if VersionsRise(recs') {
      forall j | 0 <= j < |recs| && SameLine(recs[j], next) ensures recs[j].version < next.version {
        assert SameLine(recs'[j], recs'[|recs|]);
      }
    }
  }

  lemma SetKeepsPlaces(recs: seq<Rec>, i: nat, r: Rec)
    requires i < |recs| && SamePlace(recs[i], r)
    ensures KeepsPlaces(recs, recs[i := r])
  {
  }

  lemma AppendKeepsPlaces(recs: seq<Rec>, recs': seq<Rec>, next: Rec)
    requires KeepsPlaces(recs, recs')
    ensures KeepsPlaces(recs, recs' + [next])
  {
  }

  lemma UpdateKeepsPlaces(reg: Registry, s: State, a: UpdateArgs, now: int)
    requires Update(reg, s, a, now).Ok?
    ensures KeepsPlaces(s.recs, Update(reg, s, a, now).value.recs)
  {
    var mt := Normalize(a.masterType);
    var i := Current(s, mt, a.code, now, a.tenant).value;
    var draft := reg[mt].requiresApproval && !a.force;
    UpdateIs(reg, s, a, now);
    if !draft { SetKeepsPlaces(s.recs, i, Close(s.recs[i], a.effectiveAt.GetOr(now))); }
    AppendKeepsPlaces(s.recs, if draft then s.recs else s.recs[i := Close(s.recs[i], a.effectiveAt.GetOr(now))],
                      NextVersion(a, s.recs[i], draft, now));
  }

  lemma PublishKeepsPlaces(s: State, masterType: string, code: string, actor: string, now: int)
    requires Publish(s, masterType, code, actor, now).Ok?
    ensures KeepsPlaces(s.recs, Publish(s, masterType, code, actor, now).value.recs)
  {
    var mt := Normalize(masterType);
    var i := LatestInStatus(s.recs, mt, code, Approved).value;
    var recs' := Publish(s, masterType, code, actor, now).value.recs;
    var closed := CloseAt(s.recs, Predecessor(s.recs, mt, code, s.recs[i].id), now);
    assert KeepsPlaces(s.recs, closed);
    SetKeepsPlaces(closed, i, recs'[i]);
    assert SamePlace(s.recs[i], recs'[i]);
  }

  lemma StepKeepsPlaces(reg: Registry, s: State, op: Op, now: int)
    requires !op.DeleteOp?
    ensures KeepsPlaces(s.recs, Next(reg, s, op, now).recs)
  {
    if Apply(reg, s, op, now).Ok? {
      var recs' := Next(reg, s, op, now).recs;
      match op {
        case CreateOp(_) => AppendKeepsPlaces(s.recs, s.recs, recs'[|s.recs|]);
        case UpdateOp(a) => UpdateKeepsPlaces(reg, s, a, now);
        case PublishOp(mt, code, actor) => PublishKeepsPlaces(s, mt, code, actor, now);
        case SubmitOp(mt, code, _) =>
          var i := LatestInStatus(s.recs, Normalize(mt), code, Draft).value;
          SetKeepsPlaces(s.recs, i, recs'[i]);
        case ApproveOp(mt, code, _) =>
          var i := LatestInStatus(s.recs, Normalize(mt), code, InReview).value;
          SetKeepsPlaces(s.recs, i, recs'[i]);
        case DeactivateOp(mt, code, _, _) =>
          var i := Current(s, Normalize(mt), code, now, None).value;
          SetKeepsPlaces(s.recs, i, recs'[i]);
      }
    }
  }

  lemma UpdateRisesExactlyWhen(reg: Registry, s: State, a: UpdateArgs, now: int)
    requires VersionsRise(s.recs) && Update(reg, s, a, now).Ok?
    ensures VersionsRise(Update(reg, s, a, now).value.recs) <==> NumbersOn(reg, s, UpdateOp(a), now)
  {
    var mt := Normalize(a.masterType);
    var i := Current(s, mt, a.code, now, a.tenant).value;
    var draft := reg[mt].requiresApproval && !a.force;
    var next := NextVersion(a, s.recs[i], draft, now);
    var base := if draft then s.recs else s.recs[i := Close(s.recs[i], a.effectiveAt.GetOr(now))];
    UpdateIs(reg, s, a, now);
    if !draft { SetKeepsPlaces(s.recs, i, base[i]); }
    SamePlacesRise(s.recs, base);
    AppendRisesExactlyWhen(base, next);
    SamePlacesTop(s.recs, base, next);
  }

  lemma SamePlacesTop(recs: seq<Rec>, recs': seq<Rec>, next: Rec)
    requires |recs| == |recs'| && KeepsPlaces(recs, recs')
    ensures Tops(recs, next) <==> Tops(recs', next)
  {
    forall j | 0 <= j < |recs|
      ensures SameLine(recs[j], next) == SameLine(recs'[j], next) && recs[j].version == recs'[j].version
    {
      assert SamePlace(recs[j], recs'[j]);
    }
  }

  /** Removing a record keeps the numbers of the others rising. */
  lemma RemoveRises(recs: seq<Rec>, i: nat)
    requires VersionsRise(recs) && i < |recs|
    ensures VersionsRise(RemoveAt(recs, i))
  {
  }

  /** Every other call leaves lines and numbers alone, or removes a record. */
  lemma OtherCallsRise(reg: Registry, s: State, op: Op, now: int)
    requires VersionsRise(s.recs) && !op.CreateOp? && !op.UpdateOp? && Apply(reg, s, op, now).Ok?
    ensures VersionsRise(Next(reg, s, op, now).recs)
  {
    match op {
      case DeleteOp(mt, code, _, _) =>
        RemoveRises(s.recs, Resolve(s.recs, Normalize(mt), Normalize(code), now, None, true).value);
      case _ =>
        StepKeepsPlaces(reg, s, op, now);
        SamePlacesRise(s.recs, Next(reg, s, op, now).recs);
    }
  }

  /** From rising numbers, a call of any kind keeps them rising exactly when it numbers on. */
  lemma StepRisesExactlyWhen(reg: Registry, s: State, op: Op, now: int)
    requires VersionsRise(s.recs)
    ensures VersionsRise(Next(reg, s, op, now).recs) <==> NumbersOn(reg, s, op, now)
  {
    if Apply(reg, s, op, now).Ok? {
      match op {
        case CreateOp(a) =>
          AppendRisesExactlyWhen(s.recs,
                                 CreatedRecord(a, reg[Normalize(a.masterType)].requiresApproval && !a.force, now));
        case UpdateOp(a) => UpdateRisesExactlyWhen(reg, s, a, now);
        case _ => OtherCallsRise(reg, s, op, now);
      }
    }
  }

  ghost predicate NumbersOnThroughout(reg: Registry, s: State, steps: seq<Step>)
    decreases |steps|
  {
    steps == [] ||
    (NumbersOn(reg, s, steps[0].op, steps[0].now)
     && NumbersOnThroughout(reg, Next(reg, s, steps[0].op, steps[0].now), steps[1..]))
  }

  /** Without hard deletes a clash of numbers stays. */
  lemma {:induction false} ClashStays(reg: Registry, s: State, steps: seq<Step>)
    requires !VersionsRise(s.recs) && forall k :: 0 <= k < |steps| ==> !steps[k].op.DeleteOp?
    ensures !VersionsRise(Run(reg, s, steps).recs)
    decreases |steps|
  {
    if steps != [] {
      var s' := Next(reg, s, steps[0].op, steps[0].now);
      StepKeepsPlaces(reg, s, steps[0].op, steps[0].now);
      ClashCarries(s.recs, s'.recs);
      ClashStays(reg, s', steps[1..]);
    }
  }

  lemma ClashCarries(recs: seq<Rec>, recs': seq<Rec>)
    requires KeepsPlaces(recs, recs') && !VersionsRise(recs)
    ensures !VersionsRise(recs')
  {
    var i, j :| 0 <= i < j < |recs| && SameLine(recs[i], recs[j]) && recs[i].version >= recs[j].version;
    assert SamePlace(recs[i], recs'[i]) && SamePlace(recs[j], recs'[j]);
    assert SameLine(recs'[i], recs'[j]);
  }

  /** Main result: after a run without hard deletes, from any store with rising numbers and for any
      clock, the numbers rise in every line exactly when every call of the run numbered on. */
  lemma {:induction false} VersionsRiseExactlyWhen(reg: Registry, s: State, steps: seq<Step>)
    requires VersionsRise(s.recs) && forall k :: 0 <= k < |steps| ==> !steps[k].op.DeleteOp?
    ensures VersionsRise(Run(reg, s, steps).recs) <==> NumbersOnThroughout(reg, s, steps)
    decreases |steps|
  {
    if steps != [] {
      var s' := Next(reg, s, steps[0].op, steps[0].now);
      StepRisesExactlyWhen(reg, s, steps[0].op, steps[0].now);
      if NumbersOn(reg, s, steps[0].op, steps[0].now) {
        VersionsRiseExactlyWhen(reg, s', steps[1..]);
      } else {
        ClashStays(reg, s', steps[1..]);
      }
    }
  }
}
