/** The drop records of one drop script (app.py:64-106).

    A script is cut at every `if ($random < BOUND)` header; the text after a
    header, up to the next one, is that branch's body, and every
    `obj_add(npc_coord, ITEM, QTY, ^lootdrop_duration)` call in a body is one
    emission. The cutting and the call matching are done by regular expressions
    that this model takes as already applied: a script arrives as its whole text
    (for the death-drop test) and its branches in order, each with its bound, its
    body text (for the members test) and the captured (item, quantity) pairs.

    A drop's chance is a number of successes out of 128. The running
    `previous_chance` is updated once per emission, so the first emission of a
    branch gets `bound - previous_chance`, every later emission of the same
    branch gets 0, and a branch without emissions leaves the running value where
    it was. Bounds are never checked, so a falling bound gives a negative chance. */
module DropFile {
  import opened Text
  import opened Quantity

  /** A script containing this text gets the synthetic default drop first. */
  const DeathDropMarker: string := "npc_param(death_drop)"

  /** A branch whose body contains this text emits members-only drops. */
  const MembersMarker: string := "map_members = true"

  /** The two captures of one `obj_add` call, as found in the branch body. */
  datatype Emission = Emission(item: string, quantity: string)

  /** One `if ($random < bound)` branch: its bound, its body text and its emissions. */
  datatype Branch = Branch(bound: nat, body: string, emissions: seq<Emission>)

  /** The chance of a drop: certain (the default drop's `100%`) or a number of
      successes out of 128. */
  datatype Chance = Certain | OutOf128(successes: int)

  /** One drop record: its item, chance, quantity text and members flag. */
  datatype Drop = Drop(item: string, chance: Chance, quantity: string, members: bool)

  /** The record added for a death-drop script. */
  const DefaultDrop: Drop := Drop("default_drop", Certain, "1", false)

  /** The value `previous_chance` holds after the branches `bs`: the bound of the
      last branch that emitted anything, or 0 if none did. */
  function LastEmittingBound(bs: seq<Branch>): nat {
    if bs == [] then 0
    else if bs[|bs| - 1].emissions != [] then bs[|bs| - 1].bound
    else LastEmittingBound(bs[..|bs| - 1])
  }

  /** The number of emissions in the branches `bs`. */
  function EmissionCount(bs: seq<Branch>): nat {
    if bs == [] then 0 else EmissionCount(bs[..|bs| - 1]) + |bs[|bs| - 1].emissions|
  }

  /** The record of emission `k` of branch `b` when `previous_chance` was
      `previous` on entering the branch. */
  function EmittedDrop(b: Branch, k: nat, previous: int): Drop
    requires k < |b.emissions|
  {
    Record(b.emissions[k], if k == 0 then b.bound - previous else 0, Contains(b.body, MembersMarker))
  }

  /** The record built from one emission: the stripped item, the given number
      of successes, the parsed quantity and the given members flag. */
  function Record(e: Emission, successes: int, members: bool): Drop {
    Drop(Strip(e.item), OutOf128(successes), ParseQuantity(e.quantity), members)
  }

  /** The records of the first `n` emissions of branch `b`. */
  function EmittedDrops(b: Branch, previous: int, n: nat): (ds: seq<Drop>)
    requires n <= |b.emissions|
    ensures |ds| == n
  {
    if n == 0 then [] else EmittedDrops(b, previous, n - 1) + [EmittedDrop(b, n - 1, previous)]
  }

  /** The records of one branch, one per emission. */
  function BranchDrops(b: Branch, previous: int): (ds: seq<Drop>)
    ensures |ds| == |b.emissions|
  {
    EmittedDrops(b, previous, |b.emissions|)
  }

  /** The records of all branches, in order, each branch entered with the
      running value its predecessors left. */
  function ScriptDrops(bs: seq<Branch>): (ds: seq<Drop>)
    ensures |ds| == EmissionCount(bs)
  {
    if bs == [] then []
    else
      var init := bs[..|bs| - 1];
      ScriptDrops(init) + BranchDrops(bs[|bs| - 1], LastEmittingBound(init))
  }

  /** The records of a script: the default drop when its text carries the death
      drop marker, then the branch records. */
  function FileDrops(content: string, bs: seq<Branch>): seq<Drop> {
    (if Contains(content, DeathDropMarker) then [DefaultDrop] else []) + ScriptDrops(bs)
  }

  /** `parse_drop_file`, after the file has been read and cut into branches. */
  method ParseDropFile(content: string, branches: seq<Branch>) returns (drops: seq<Drop>)
    ensures drops == FileDrops(content, branches)
  {
    drops := [];
    if Contains(content, DeathDropMarker) {
      drops := drops + [DefaultDrop];
    }
    ghost var head := drops;
    var previous := 0;
    for i := 0 to |branches|
      invariant drops == head + ScriptDrops(branches[..i])
      invariant previous == LastEmittingBound(branches[..i])
    {
      ScriptDropsStep(branches, i);
      AppendAssoc(head, ScriptDrops(branches[..i]), BranchDrops(branches[i], previous));
      drops, previous := AddBranchDrops(drops, branches[i], previous);
    }
    assert branches[..|branches|] == branches;
  }

  /** The body of the loop over branches: one record per emission of `b`, each
      computing its chance from `previous`, which it then sets to the bound. */
  method AddBranchDrops(drops: seq<Drop>, b: Branch, previous: int) returns (out: seq<Drop>, next: int)
    ensures out == drops + BranchDrops(b, previous)
    ensures next == if b.emissions == [] then previous else b.bound
  {
    out, next := drops, previous;
    var isMembers := Contains(b.body, MembersMarker);
    for j := 0 to |b.emissions|
      invariant out == drops + EmittedDrops(b, previous, j)
      invariant next == if j == 0 then previous else b.bound
    {
      var e := b.emissions[j];
      var chance := b.bound - next;
      assert chance == if j == 0 then b.bound - previous else 0;
      var d := Record(e, chance, isMembers);
      assert d == EmittedDrop(b, j, previous);
      AppendAssoc(drops, EmittedDrops(b, previous, j), [d]);
      out := out + [d];
      next := b.bound;
    }
  }

  /** Extending the prefix of branches by one adds that branch's records and
      moves the running value as `AddBranchDrops` does. */
  lemma ScriptDropsStep(bs: seq<Branch>, i: nat)
    requires i < |bs|
    ensures ScriptDrops(bs[..i + 1]) == ScriptDrops(bs[..i]) + BranchDrops(bs[i], LastEmittingBound(bs[..i]))
    ensures LastEmittingBound(bs[..i + 1]) == if bs[i].emissions == [] then LastEmittingBound(bs[..i]) else bs[i].bound
  {
    assert bs[..i + 1][..i] == bs[..i];
  }

  lemma AppendAssoc<T>(a: seq<T>, b: seq<T>, c: seq<T>)
    ensures (a + b) + c == a + (b + c)
  {
  }

  /** The death-drop test decides the first record and adds exactly one record;
      every other record comes from one emission. */
  lemma FileDropsShape(content: string, bs: seq<Branch>)
    ensures Contains(content, DeathDropMarker) ==>
      |FileDrops(content, bs)| == 1 + EmissionCount(bs) && FileDrops(content, bs)[0] == DefaultDrop
    ensures !Contains(content, DeathDropMarker) ==>
      FileDrops(content, bs) == ScriptDrops(bs) && |FileDrops(content, bs)| == EmissionCount(bs)
  {
  }

  /** Record `k` of branch `i` sits after the records of the earlier branches. It
      carries the stripped item, the parsed quantity and the branch's own members
      flag; if it is the branch's first record it gets the branch bound minus the
      bound of the last earlier branch that emitted, and otherwise 0. */
  lemma ScriptDropAt(bs: seq<Branch>, i: nat, k: nat)
    requires i < |bs| && k < |bs[i].emissions|
    ensures EmissionCount(bs[..i]) + k < |ScriptDrops(bs)|
    ensures ScriptDrops(bs)[EmissionCount(bs[..i]) + k] == EmittedDrop(bs[i], k, LastEmittingBound(bs[..i]))
  {
    ScriptDropIs(bs, i, k);
    EmittedDropAt(bs[i], LastEmittingBound(bs[..i]), |bs[i].emissions|, k);
  }

  /** The first record of branch `i` gets the branch bound minus the bound of
      the last earlier branch that emitted; every later record of it gets 0. */
  lemma ScriptDropChance(bs: seq<Branch>, i: nat, k: nat)
    requires i < |bs| && k < |bs[i].emissions|
    ensures EmissionCount(bs[..i]) + k < |ScriptDrops(bs)|
    ensures ScriptDrops(bs)[EmissionCount(bs[..i]) + k].chance
      == OutOf128(if k == 0 then bs[i].bound - LastEmittingBound(bs[..i]) else 0)
  {
    ScriptDropAt(bs, i, k);
  }

  /** Every record of branch `i` carries the stripped item and the members flag
      of that branch's own body. */
  lemma ScriptDropItem(bs: seq<Branch>, i: nat, k: nat)
    requires i < |bs| && k < |bs[i].emissions|
    ensures EmissionCount(bs[..i]) + k < |ScriptDrops(bs)|
    ensures ScriptDrops(bs)[EmissionCount(bs[..i]) + k].item == Strip(bs[i].emissions[k].item)
    ensures ScriptDrops(bs)[EmissionCount(bs[..i]) + k].members == Contains(bs[i].body, MembersMarker)
  {
    ScriptDropAt(bs, i, k);
  }

  /** Every record carries its emission's parsed quantity. */
  lemma ScriptDropQuantity(bs: seq<Branch>, i: nat, k: nat)
    requires i < |bs| && k < |bs[i].emissions|
    ensures EmissionCount(bs[..i]) + k < |ScriptDrops(bs)|
    ensures ScriptDrops(bs)[EmissionCount(bs[..i]) + k].quantity == ParseQuantity(bs[i].emissions[k].quantity)
  {
    ScriptDropAt(bs, i, k);
  }

  /** Bounds are taken as they come: after a branch with bound 64, a branch
      with bound 32 gets -32 successes for its first record and 0 for its
      second. */
  lemma FallingBoundExample(bs: seq<Branch>)
    requires |bs| == 2 && bs[0].bound == 64 && bs[1].bound == 32
    requires |bs[0].emissions| == 1 && |bs[1].emissions| == 2
    ensures |ScriptDrops(bs)| == 3
    ensures ScriptDrops(bs)[0].chance == OutOf128(64)
    ensures ScriptDrops(bs)[1].chance == OutOf128(-32)
    ensures ScriptDrops(bs)[2].chance == OutOf128(0)
  {
    assert bs[..1][..0] == bs[..0] && bs[..2] == bs;
    ScriptDropChance(bs, 0, 0);
    ScriptDropChance(bs, 1, 0);
    ScriptDropChance(bs, 1, 1);
  }

  lemma ScriptDropIs(bs: seq<Branch>, i: nat, k: nat)
    requires i < |bs| && k < |bs[i].emissions|
    ensures EmissionCount(bs[..i]) + k < |ScriptDrops(bs)|
    ensures ScriptDrops(bs)[EmissionCount(bs[..i]) + k] == BranchDrops(bs[i], LastEmittingBound(bs[..i]))[k]
  {
    var m := EmissionCount(bs[..i]) + k;
    ScriptDropsStep(bs, i);
    ScriptDropsPrefix(bs, i + 1, m);
    AppendIndex(ScriptDrops(bs[..i]), BranchDrops(bs[i], LastEmittingBound(bs[..i])), k);
  }

  /** The records of a prefix of the branches begin the records of all of them. */
  lemma {:induction false} ScriptDropsPrefix(bs: seq<Branch>, n: nat, m: nat)
    requires n <= |bs| && m < |ScriptDrops(bs[..n])|
    ensures m < |ScriptDrops(bs)| && ScriptDrops(bs)[m] == ScriptDrops(bs[..n])[m]
    decreases |bs|
  {
    if n == |bs| {
      assert bs[..n] == bs;
    } else {
      var init := bs[..|bs| - 1];
      assert init[..n] == bs[..n];
      ScriptDropsPrefix(init, n, m);
    }
  }

  /** Index `k` of `tail` in `head + tail`. */
  lemma AppendIndex<T>(head: seq<T>, tail: seq<T>, k: nat)
    requires k < |tail|
    ensures (head + tail)[|head| + k] == tail[k]
  {
  }

  /** Record `k` of the first `n` records of a branch is its emission `k`'s record. */
  lemma {:induction false} EmittedDropAt(b: Branch, previous: int, n: nat, k: nat)
    requires k < n <= |b.emissions|
    ensures EmittedDrops(b, previous, n)[k] == EmittedDrop(b, k, previous)
  {
    if k < n - 1 {
      EmittedDropAt(b, previous, n - 1, k);
    }
  }

  /** A run of branches without emissions passes the running value on
      unchanged, so their probability mass goes to the next branch that emits. */
  lemma {:induction false} EmptyBranchesCarry(bs: seq<Branch>, i: nat, j: nat)
    requires i <= j <= |bs|
    requires forall l :: i <= l < j ==> bs[l].emissions == []
    ensures LastEmittingBound(bs[..j]) == LastEmittingBound(bs[..i])
    decreases j - i
  {
    if i < j {
      assert bs[..j][..j - 1] == bs[..j - 1];
      EmptyBranchesCarry(bs, i, j - 1);
    }
  }

  /** After a branch that emits, the running value is that branch's bound. */
  lemma EmittingBranchSetsBound(bs: seq<Branch>, i: nat)
    requires i < |bs| && bs[i].emissions != []
    ensures LastEmittingBound(bs[..i + 1]) == bs[i].bound
  {
    assert bs[..i + 1][i] == bs[i];
  }

  /** A drop's weight in the sum of chances: the default drop counts as all
      128 successes. */
  function Successes(d: Drop): int {
    match d.chance
    case Certain => 128
    case OutOf128(n) => n
  }

  /** The total number of successes of a list of drops. */
  function SuccessSum(ds: seq<Drop>): int {
    if ds == [] then 0 else SuccessSum(ds[..|ds| - 1]) + Successes(ds[|ds| - 1])
  }

  lemma {:induction false} SuccessSumAppend(a: seq<Drop>, b: seq<Drop>)
    ensures SuccessSum(a + b) == SuccessSum(a) + SuccessSum(b)
    decreases |b|
  {
    if b == [] {
      assert a + b == a;
    } else {
      var init := b[..|b| - 1];
      assert (a + b)[..|a + b| - 1] == a + init;
      SuccessSumAppend(a, init);
    }
  }

  /** The records of one branch together carry `bound - previous` successes
      (nothing if it has no emissions). */
  lemma BranchSuccesses(b: Branch, previous: int)
    ensures SuccessSum(BranchDrops(b, previous)) == if b.emissions == [] then 0 else b.bound - previous
  {
    EmittedSuccesses(b, previous, |b.emissions|);
  }

  /** Only the first record of a branch carries successes. */
  lemma {:induction false} EmittedSuccesses(b: Branch, previous: int, n: nat)
    requires n <= |b.emissions|
    ensures SuccessSum(EmittedDrops(b, previous, n)) == if n == 0 then 0 else b.bound - previous
  {
    if n > 0 {
      var ds := EmittedDrops(b, previous, n);
      EmittedSuccesses(b, previous, n - 1);
      assert ds[..n - 1] == EmittedDrops(b, previous, n - 1);
    }
  }

  /** The chances of all branch records telescope: their successes add up to
      the bound of the last branch that emitted, whatever the bounds in between
      (negative differences included). */
  lemma {:induction false} ScriptSuccessesTelescope(bs: seq<Branch>)
    ensures SuccessSum(ScriptDrops(bs)) == LastEmittingBound(bs)
  {
    if bs != [] {
      var init := bs[..|bs| - 1];
      var last := bs[|bs| - 1];
      ScriptSuccessesTelescope(init);
      SuccessSumAppend(ScriptDrops(init), BranchDrops(last, LastEmittingBound(init)));
      BranchSuccesses(last, LastEmittingBound(init));
    }
  }

  /** Conservation of probability mass: when the last branch emits and its
      bound is 128, the branch records carry 128 successes out of 128. */
  lemma ScriptSuccessesComplete(bs: seq<Branch>)
    requires bs != [] && bs[|bs| - 1].emissions != [] && bs[|bs| - 1].bound == 128
    ensures SuccessSum(ScriptDrops(bs)) == 128
  {
    ScriptSuccessesTelescope(bs);
  }
}
