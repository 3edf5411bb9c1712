/** A small vocabulary for concrete runs of service calls. */
module Calls {
  import opened Text
  import opened Records
  import opened Resolution
  import opened Lifecycle
  import opened Import

  /** One master "M", with or without approval; all calls are about its code "A". */
  function Masters(requiresApproval: bool): Registry {
    map["M" := Manifest(requiresApproval)]
  }

  const EMPTY: State := State([], [])

  function Titled(name: string): Patch {
    Patch(name, None, None, None, None)
  }

  function Creating(name: string, tenant: Tenant, force: bool, id: string): Op {
    CreateOp(CreateArgs("M", "A", Titled(name), tenant, "dev", false, force, id))
  }

  function Updating(effectiveAt: Option<int>, tenant: Tenant, force: bool, id: string): Op {
    UpdateOp(UpdateArgs("M", "A", Titled("Alpha"), "dev", effectiveAt, tenant, force, id))
  }

  lemma Spellings()
    ensures Normalize("M") == "M" && Strip("A") == "A" && Upper("A") == "A" && Normalize("A") == "A"
  {
    assert Strip("M") == "M" && Upper("M") == "M";
  }

  lemma RunStep(reg: Registry, s: State, op: Op, now: int, rest: seq<Step>)
    ensures Run(reg, s, [Step(op, now)] + rest) == Run(reg, Next(reg, s, op, now), rest)
  {
    var steps := [Step(op, now)] + rest;
    assert steps[1..] == rest;
  }

  lemma RunLast(reg: Registry, s: State, op: Op, now: int)
    ensures Run(reg, s, [Step(op, now)]) == Next(reg, s, op, now)
  {
    RunStep(reg, s, op, now, []);
    assert [Step(op, now)] + [] == [Step(op, now)];
  }

  /** The record that a creation of "A" in an empty store makes. */
  function First(name: string, tenant: Tenant, id: string, now: int): Rec {
    Rec(id, "M", "A", Fresh(Titled(name)), false, true, now, None, 1, tenant, "dev", Some("dev"), Published)
  }

  lemma CreateFirst(reg: Registry, name: string, tenant: Tenant, force: bool, id: string, now: int)
    requires "M" in reg && (reg["M"].requiresApproval ==> force)
    ensures Apply(reg, EMPTY, Creating(name, tenant, force, id), now).Ok?
    ensures Next(reg, EMPTY, Creating(name, tenant, force, id), now).recs == [First(name, tenant, id, now)]
  {
    Spellings();
  }

  /** An update whose search finds position `i`. */
  lemma UpdateFound(reg: Registry, s: State, effectiveAt: Option<int>, tenant: Tenant, force: bool, id: string,
                    now: int, i: nat)
    requires "M" in reg && i < |s.recs| && Resolve(s.recs, "M", "A", now, tenant, false) == Some(i)
    ensures
      var op := Updating(effectiveAt, tenant, force, id);
      var draft := reg["M"].requiresApproval && !force;
      && Apply(reg, s, op, now).Ok?
      && Current(s, Normalize(op.update.masterType), op.update.code, now, tenant) == Some(i)
      && Next(reg, s, op, now).recs ==
           (if draft then s.recs else s.recs[i := Close(s.recs[i], effectiveAt.GetOr(now))])
           + [NextVersion(op.update, s.recs[i], draft, now)]
  {
    Spellings();
  }

  lemma OneRow(reg: Registry, s: State, row: Row, tick: Tick, actor: string)
    requires ImportRow(reg, s, "M", row, tick, actor).Ok?
    ensures
      var r := ImportRow(reg, s, "M", row, tick, actor).value;
      ImportRows(reg, s, "M", [row], [tick], actor) == Imported(r.0, [r.1], None)
  {
    var rest := ImportRow(reg, s, "M", row, tick, actor).value.0;
    assert [row][1..] == [] && [tick][1..] == [];
    assert ImportRows(reg, rest, "M", [], [], actor) == Imported(rest, [], None);
  }

  lemma OneCounts(action: RowAction)
    ensures Count([action], Added) == (if action.Added? then 1 else 0)
    ensures Count([action], Updated) == (if action.Updated? then 1 else 0)
  {
    assert [action][..0] == [];
  }
}
