/** Every run of processes that load, inspect and save one stack, among other writers of other refs. */
module StackRuns {
  import opened CommitGraph
  import opened LocalStack
  import opened ObjectIds
  import opened Wrappers

  type Refs = map<string, Ref>

  datatype Setting = Setting(graph: Graph, decode: Decoder, policy: Policy, stack: string)

  /** Another process changes other refs, or some process completes a registration. */
  datatype Step = Other(after: Refs) | Publish(next: Record, publication: Publication)

  /** All interleavings: only the instant at which a transaction commits is a step of its own. */
  ghost predicate Next(s: Setting, was: Refs, step: Step, now: Refs)
    requires s.graph.Valid()
  {
    match step
    case Other(after) => now == after && SameAt(was, after, {MetadataRef(s.stack)})
    case Publish(next, p) =>
      && p.before == was && now == was[p.ref := Direct(p.oid)]
      && Registers(s.graph, s.decode, s.policy, s.stack, next, p)
  }

  datatype Run = Run(states: seq<Refs>, steps: seq<Step>) {
    ghost predicate Valid(s: Setting)
      requires s.graph.Valid()
    {
      && |states| == |steps| + 1
      && forall i :: 0 <= i < |steps| ==> Next(s, states[i], steps[i], states[i + 1])
    }
  }

  /** The record that the metadata ref names. */
  ghost function Registered(s: Setting, refs: Refs): Option<Record> {
    var name := MetadataRef(s.stack);
    if name in refs && refs[name].Direct? then s.decode(refs[name].oid) else None
  }

  lemma StepExtends(s: Setting, was: Refs, step: Step, now: Refs)
    requires s.graph.Valid() && Next(s, was, step, now)
    ensures Registered(s, was).Some? ==> Registered(s, now).Some? && Extends(Registered(s, was).value, Registered(s, now).value)
    ensures step.Other? ==> Registered(s, now) == Registered(s, was)
    ensures step.Publish? ==> Registered(s, now) == Some(step.next) && WellFormed(s.policy, step.next)
  {
  }

  /** Over any run a registered stack stays registered with the same base and chain, and every binding once made stays. */
  lemma {:induction false} BindingsArePermanent(s: Setting, run: Run, i: nat, j: nat)
    requires s.graph.Valid() && run.Valid(s) && i <= j < |run.states|
    requires Registered(s, run.states[i]).Some?
    ensures Registered(s, run.states[j]).Some?
    ensures Extends(Registered(s, run.states[i]).value, Registered(s, run.states[j]).value)
    decreases j
  {
    hide Extends, Next, Registered;
    if i == j {
      ExtendsReflexive(Registered(s, run.states[i]).value);
    } else {
      BindingsArePermanent(s, run, i, j - 1);
      StepExtends(s, run.states[j - 1], run.steps[j - 1], run.states[j]);
      ExtendsTransitive(Registered(s, run.states[i]).value, Registered(s, run.states[j - 1]).value, Registered(s, run.states[j]).value);
    }
  }

  /** So each successful publication extends every earlier one; no registration is lost or replaced. */
  lemma PublicationsExtend(s: Setting, run: Run, i: nat, j: nat)
    requires s.graph.Valid() && run.Valid(s) && i < j < |run.steps|
    requires run.steps[i].Publish? && run.steps[j].Publish?
    ensures Extends(run.steps[i].next, run.steps[j].next)
    ensures Names(run.steps[i].next) == Names(run.steps[j].next)
  {
    hide Next, Registered, WellFormed;
    assert Next(s, run.states[i], run.steps[i], run.states[i + 1]) && Next(s, run.states[j], run.steps[j], run.states[j + 1]);
    StepExtends(s, run.states[i], run.steps[i], run.states[i + 1]);
    StepExtends(s, run.states[j], run.steps[j], run.states[j + 1]);
    BindingsArePermanent(s, run, i + 1, j + 1);
  }

  /** Starting without the stack, whatever is registered later is one well-formed record that some process published. */
  lemma {:induction false} OnlyPublishedRecords(s: Setting, run: Run, j: nat)
    requires s.graph.Valid() && run.Valid(s) && j < |run.states|
    requires MetadataRef(s.stack) !in run.states[0]
    ensures Registered(s, run.states[j]).Some? ==>
      exists i :: 0 <= i < j && run.steps[i].Publish? && run.steps[i].next == Registered(s, run.states[j]).value && WellFormed(s.policy, run.steps[i].next)
  {
    hide Next, WellFormed, MetadataRef;
    if j > 0 {
      OnlyPublishedRecords(s, run, j - 1);
      assert Next(s, run.states[j - 1], run.steps[j - 1], run.states[j]);
      StepExtends(s, run.states[j - 1], run.steps[j - 1], run.states[j]);
    }
  }

  ghost function LiveHead(refs: Refs, name: string): string {
    if HeadRef(name) in refs && refs[HeadRef(name)].Direct? then refs[HeadRef(name)].oid else ""
  }

  ghost function LiveHeads(refs: Refs, r: Record): seq<string> {
    seq(|Names(r)|, i requires 0 <= i < |Names(r)| => LiveHead(refs, Names(r)[i]))
  }

  /** At the commit instant itself the branches stand in one line: each is an ordinary ref that every later branch descends from. */
  lemma PublishedChainIsLive(s: Setting, next: Record, p: Publication, i: nat, j: nat)
    requires s.graph.Valid() && Registers(s.graph, s.decode, s.policy, s.stack, next, p)
    requires i <= j < |Names(next)|
    ensures HeadRef(Names(next)[i]) in p.before && p.before[HeadRef(Names(next)[i])].Direct?
    ensures Healthy(s.graph, LiveHeads(p.before, next))
    ensures Ancestor(s.graph, LiveHeads(p.before, next)[i], LiveHeads(p.before, next)[j])
  {
    hide WellFormed, Extends, Ancestor, Oid, HeadRef, MetadataRef;
    var prior, priorOid, heads :| RegistersFrom(s.graph, s.decode, s.policy, s.stack, next, p, prior, priorOid, heads);
    assert LiveHeads(p.before, next) == Heads(next, heads);
    ChainReaches(s.graph, LiveHeads(p.before, next), i, j);
  }
}
