/** The state of `DropParser` (app.py:6-48, 112-160): the drop list of every
    monster and, for every item, the monsters that drop it. The constructor
    walks the drop scripts in order; each script's records are appended to the
    list of the monster named after the file, and each record's item gets the
    monster name appended to its list unless the name is already there. The two
    searches turn a ranked list of names into the tables they display. */
module DropModel {
  import opened DropFile
  import opened Search

  /** One script as the directory walk delivers it: its file name, its whole
      text and its branches (see `DropFile`). */
  datatype SourceFile = SourceFile(filename: string, content: string, branches: seq<Branch>)

  /** `filename.split('.')[0]`: the file name up to its first dot. */
  function MonsterName(filename: string): (name: string)
    ensures |name| <= |filename| && name == filename[..|name|]
    ensures forall i :: 0 <= i < |name| ==> name[i] != '.'
    ensures name == filename || filename[|name|] == '.'
  {
    if filename == [] || filename[0] == '.' then []
    else [filename[0]] + MonsterName(filename[1..])
  }

  /** A stem without dots names the monster whatever extensions follow it. */
  lemma {:induction false} MonsterNameOf(stem: string, rest: string)
    requires forall i :: 0 <= i < |stem| ==> stem[i] != '.'
    ensures MonsterName(stem + "." + rest) == stem
  {
    if stem != [] {
      assert (stem + "." + rest)[1..] == stem[1..] + "." + rest;
      MonsterNameOf(stem[1..], rest);
    }
  }

  /** No name occurs twice. */
  predicate NoDuplicates(names: seq<string>) {
    forall i, j :: 0 <= i < j < |names| ==> names[i] != names[j]
  }

  /** The item's monster list after one record of monster `name`: the name is
      appended unless it is already there. */
  function Listed(names: seq<string>, name: string): seq<string> {
    if name in names then names else names + [name]
  }

  /** Listing keeps the list in order, adds `name` and nothing else, and adds
      it at most once. */
  lemma ListedOnce(names: seq<string>, name: string)
    ensures names <= Listed(names, name) && name in Listed(names, name)
    ensures forall n :: n in Listed(names, name) <==> n in names || n == name
    ensures NoDuplicates(names) ==> NoDuplicates(Listed(names, name))
    ensures Listed(Listed(names, name), name) == Listed(names, name)
  {
  }

  /** The monster list of `item`, empty when the item is not indexed yet. */
  function NamesFor(index: map<string, seq<string>>, item: string): seq<string> {
    if item in index then index[item] else []
  }

  /** The drop list of monster `name`, empty when it has none yet. */
  function DropsOf(monsters: map<string, seq<Drop>>, name: string): seq<Drop> {
    if name in monsters then monsters[name] else []
  }

  /** The index after the records `drops` of monster `name`, one record at a time. */
  function RegisterAll(index: map<string, seq<string>>, name: string, drops: seq<Drop>): map<string, seq<string>> {
    if drops == [] then index
    else
      var before := RegisterAll(index, name, drops[..|drops| - 1]);
      var item := drops[|drops| - 1].item;
      before[item := Listed(NamesFor(before, item), name)]
  }

  /** Some record of `drops` is for `item`. */
  predicate DropsItem(drops: seq<Drop>, item: string) {
    exists k :: 0 <= k < |drops| && drops[k].item == item
  }

  lemma DropsItemAppend(a: seq<Drop>, b: seq<Drop>, item: string)
    ensures DropsItem(a + b, item) <==> DropsItem(a, item) || DropsItem(b, item)
  {
    if DropsItem(a + b, item) {
      var k :| 0 <= k < |a + b| && (a + b)[k].item == item;
      if k >= |a| {
        assert b[k - |a|].item == item;
      }
    }
    if DropsItem(a, item) {
      var k :| 0 <= k < |a| && a[k].item == item;
      assert (a + b)[k].item == item;
    }
    if DropsItem(b, item) {
      var k :| 0 <= k < |b| && b[k].item == item;
      assert (a + b)[|a| + k].item == item;
    }
  }

  /** The index after a monster's records: every item of the records lists the
      monster, added once at the end of its list if it was missing; every other
      item keeps its list, and no item outside the records is added. */
  lemma {:induction false} RegisterAllAt(index: map<string, seq<string>>, name: string, drops: seq<Drop>, item: string)
    ensures item in RegisterAll(index, name, drops) <==> item in index || DropsItem(drops, item)
    ensures NamesFor(RegisterAll(index, name, drops), item)
      == if DropsItem(drops, item) then Listed(NamesFor(index, item), name) else NamesFor(index, item)
  {
    if drops != [] {
      RegisterAllAt(index, name, drops[..|drops| - 1], item);
      DropsItemSnoc(drops, item);
      if drops[|drops| - 1].item == item {
        ListedOnce(NamesFor(index, item), name);
      }
    }
  }

  lemma DropsItemSnoc(drops: seq<Drop>, item: string)
    requires drops != []
    ensures DropsItem(drops, item) <==> DropsItem(drops[..|drops| - 1], item) || drops[|drops| - 1].item == item
  {
    var init := drops[..|drops| - 1];
    if DropsItem(init, item) {
      var k :| 0 <= k < |init| && init[k].item == item;
      assert drops[k].item == item;
    }
  }

  /** The two tables of the parser. */
  datatype Catalogue = Catalogue(monsters: map<string, seq<Drop>>, index: map<string, seq<string>>)

  /** The monster table after `monsters[name].extend(drops)`, or after
      `monsters[name] = drops` when the monster is new. */
  function Extend(monsters: map<string, seq<Drop>>, name: string, drops: seq<Drop>): map<string, seq<Drop>> {
    monsters[name := DropsOf(monsters, name) + drops]
  }

  /** The tables after one script of monster `name` produced `drops`; a script
      without records changes nothing. */
  function Add(c: Catalogue, name: string, drops: seq<Drop>): Catalogue {
    if drops == [] then c
    else Catalogue(Extend(c.monsters, name, drops), RegisterAll(c.index, name, drops))
  }

  /** The tables after the scripts `files`, in order. */
  function Load(files: seq<SourceFile>): Catalogue {
    if files == [] then Catalogue(map[], map[])
    else
      var f := files[|files| - 1];
      Add(Load(files[..|files| - 1]), MonsterName(f.filename), FileDrops(f.content, f.branches))
  }

  /** The records of all scripts named after monster `name`, in file order. */
  function DropsFor(files: seq<SourceFile>, name: string): seq<Drop> {
    if files == [] then []
    else
      var f := files[|files| - 1];
      DropsFor(files[..|files| - 1], name)
        + (if MonsterName(f.filename) == name then FileDrops(f.content, f.branches) else [])
  }

  /** The tables agree: every monster has records; every item lists each monster
      at most once; an item lists exactly the monsters with a record for it. */
  ghost predicate Consistent(c: Catalogue) {
    && (forall name :: name in c.monsters ==> c.monsters[name] != [])
    && (forall item :: item in c.index ==> c.index[item] != [] && NoDuplicates(c.index[item]))
    && (forall item, name :: item in c.index && name in c.index[item] ==>
          name in c.monsters && DropsItem(c.monsters[name], item))
    && (forall name, item :: name in c.monsters && DropsItem(c.monsters[name], item) ==>
          item in c.index && name in c.index[item])
  }

  /** Adding a script's records keeps the tables in agreement. */
  lemma AddConsistent(c: Catalogue, name: string, drops: seq<Drop>)
    requires Consistent(c)
    ensures Consistent(Add(c, name, drops))
  {
    if drops != [] {
      var m, ix := c.monsters, c.index;
      var m', ix' := Extend(m, name, drops), RegisterAll(ix, name, drops);
      forall item | item in ix'
        ensures ix'[item] != [] && NoDuplicates(ix'[item])
      {
        RegisterAllAt(ix, name, drops, item);
        ListedOnce(NamesFor(ix, item), name);
      }
      forall item, n | item in ix' && n in ix'[item]
        ensures n in m' && DropsItem(m'[n], item)
      {
        RegisterAllAt(ix, name, drops, item);
        ListedOnce(NamesFor(ix, item), name);
        DropsItemAppend(DropsOf(m, n), drops, item);
      }
      forall n, item | n in m' && DropsItem(m'[n], item)
        ensures item in ix' && n in ix'[item]
      {
        RegisterAllAt(ix, name, drops, item);
        ListedOnce(NamesFor(ix, item), name);
        if n == name {
          DropsItemAppend(DropsOf(m, n), drops, item);
        }
      }
    }
  }

  /** The tables built from any scripts agree. */
  lemma {:induction false} LoadConsistent(files: seq<SourceFile>)
    ensures Consistent(Load(files))
  {
    if files != [] {
      var f := files[|files| - 1];
      LoadConsistent(files[..|files| - 1]);
      AddConsistent(Load(files[..|files| - 1]), MonsterName(f.filename), FileDrops(f.content, f.branches));
    }
  }

  /** A monster is known exactly when some script named after it has records,
      and its list is the records of those scripts, concatenated in file order. */
  lemma {:induction false} LoadedDrops(files: seq<SourceFile>, name: string)
    ensures name in Load(files).monsters <==> DropsFor(files, name) != []
    ensures DropsOf(Load(files).monsters, name) == DropsFor(files, name)
  {
    if files != [] {
      LoadedDrops(files[..|files| - 1], name);
    }
  }

  /** One displayed row of the item search: a monster and one of its records. */
  datatype Row = Row(monster: string, drop: Drop)

  /** The rows for `item` of one monster: its records for that item, in order. */
  function MonsterRows(name: string, drops: seq<Drop>, item: string): seq<Row> {
    if drops == [] then []
    else
      var d := drops[|drops| - 1];
      MonsterRows(name, drops[..|drops| - 1], item) + (if d.item == item then [Row(name, d)] else [])
  }

  /** The rows for `item` of the monsters `names`, monster by monster. */
  function RowsFor(monsters: map<string, seq<Drop>>, names: seq<string>, item: string): seq<Row>
    requires forall n :: n in names ==> n in monsters
  {
    if names == [] then []
    else
      var name := names[|names| - 1];
      RowsFor(monsters, names[..|names| - 1], item) + MonsterRows(name, monsters[name], item)
  }

  lemma {:induction false} MonsterRowsMembers(name: string, drops: seq<Drop>, item: string, r: Row)
    ensures r in MonsterRows(name, drops, item) <==> r.monster == name && r.drop in drops && r.drop.item == item
  {
    if drops != [] {
      var init := drops[..|drops| - 1];
      MonsterRowsMembers(name, init, item, r);
      assert drops == init + [drops[|drops| - 1]];
    }
  }

  lemma {:induction false} RowsForMembers(monsters: map<string, seq<Drop>>, names: seq<string>, item: string, r: Row)
    requires forall n :: n in names ==> n in monsters
    ensures r in RowsFor(monsters, names, item) <==>
      r.monster in names && r.drop in monsters[r.monster] && r.drop.item == item
  {
    if names != [] {
      var init := names[..|names| - 1];
      var name := names[|names| - 1];
      RowsForMembers(monsters, init, item, r);
      MonsterRowsMembers(name, monsters[name], item, r);
      assert names == init + [name];
    }
  }

  /** Each record for `item` gives as many rows as it occurs in the monster's
      list, so repeated records are shown repeatedly; no other row occurs. */
  lemma {:induction false} MonsterRowsCount(name: string, drops: seq<Drop>, item: string, r: Row)
    ensures multiset(MonsterRows(name, drops, item))[r]
      == if r.monster == name && r.drop.item == item then multiset(drops)[r.drop] else 0
  {
    if drops != [] {
      var init := drops[..|drops| - 1];
      var d := drops[|drops| - 1];
      MonsterRowsCount(name, init, item, r);
      assert drops == init + [d];
      assert multiset(drops) == multiset(init) + multiset{d};
    }
  }

  /** Over a list of distinct monsters, a row occurs as often as its record
      occurs in the list of its monster, if that monster is listed and the
      record is for `item`, and not at all otherwise. */
  lemma {:induction false} RowsForCount(monsters: map<string, seq<Drop>>, names: seq<string>, item: string, r: Row)
    requires forall n :: n in names ==> n in monsters
    requires NoDuplicates(names)
    ensures multiset(RowsFor(monsters, names, item))[r]
      == if r.monster in names && r.drop.item == item then multiset(monsters[r.monster])[r.drop] else 0
  {
    if names != [] {
      var init := names[..|names| - 1];
      var name := names[|names| - 1];
      assert names == init + [name];
      assert NoDuplicates(init) by {
        forall i, j | 0 <= i < j < |init| ensures init[i] != init[j] {
          assert init[i] == names[i] && init[j] == names[j];
        }
      }
      assert name !in init by {
        forall j | 0 <= j < |init| ensures init[j] != name {
          assert init[j] == names[j];
        }
      }
      RowsForCount(monsters, init, item, r);
      MonsterRowsCount(name, monsters[name], item, r);
    }
  }

  /** The rows the item search displays for an indexed item. */
  function ItemRows(c: Catalogue, item: string): seq<Row>
    requires item in c.index && forall n :: n in c.index[item] ==> n in c.monsters
  {
    RowsFor(c.monsters, c.index[item], item)
  }

  /** On agreeing tables every monster an item lists has a drop list. */
  lemma ListedAreKnown(c: Catalogue, item: string)
    requires Consistent(c) && item in c.index
    ensures forall n :: n in c.index[item] ==> n in c.monsters
  {
  }

  /** On agreeing tables the item search misses nothing and invents nothing:
      its rows are exactly the records for the item, over all monsters. */
  lemma ItemRowsComplete(c: Catalogue, item: string, r: Row)
    requires Consistent(c) && item in c.index
    ensures r in ItemRows(c, item) <==>
      r.monster in c.monsters && r.drop in c.monsters[r.monster] && r.drop.item == item
  {
    RowsForMembers(c.monsters, c.index[item], item, r);
    if r.monster in c.monsters && r.drop in c.monsters[r.monster] && r.drop.item == item {
      var ds := c.monsters[r.monster];
      var k :| 0 <= k < |ds| && ds[k] == r.drop;
      assert DropsItem(ds, item);
    }
  }

  /** On agreeing tables each record for the item gives exactly as many rows as
      it occurs in its monster's list, and no other row occurs. */
  lemma ItemRowsCount(c: Catalogue, item: string, r: Row)
    requires Consistent(c) && item in c.index
    ensures multiset(ItemRows(c, item))[r]
      == if r.monster in c.monsters && r.drop.item == item then multiset(c.monsters[r.monster])[r.drop] else 0
  {
    RowsForCount(c.monsters, c.index[item], item, r);
    if r.monster in c.monsters && r.drop.item == item && r.drop in c.monsters[r.monster] {
      var ds := c.monsters[r.monster];
      var k :| 0 <= k < |ds| && ds[k] == r.drop;
      assert DropsItem(ds, item);
    }
  }

  class DropParser {
    var monsters: map<string, seq<Drop>>
    var itemsToMonsters: map<string, seq<string>>

    /** Both tables as one value. */
    function State(): Catalogue
      reads this
    {
      Catalogue(monsters, itemsToMonsters)
    }

    ghost predicate Valid()
      reads this
    {
      Consistent(State())
    }

    /** `__init__` and `parse_files`: start from empty tables and add the
        records of every script, in the order the walk delivers them. */
    constructor (files: seq<SourceFile>)
      ensures State() == Load(files)
      ensures Valid()
    {
      monsters := map[];
      itemsToMonsters := map[];
      new;
      for i := 0 to |files|
        invariant State() == Load(files[..i])
      {
        var f := files[i];
        var drops := ParseDropFile(f.content, f.branches);
        LoadConsistent(files[..i]);
        AddDrops(MonsterName(f.filename), drops);
        assert files[..i + 1][..i] == files[..i];
      }
      assert files[..|files|] == files;
      LoadConsistent(files);
    }

    /** The merge step of `parse_files` for one script of monster `name`. */
    method AddDrops(name: string, drops: seq<Drop>)
      requires Valid()
      modifies this
      ensures State() == Add(old(State()), name, drops)
      ensures Valid()
    {
      if drops != [] {
        if name in monsters {
          monsters := monsters[name := monsters[name] + drops];
        } else {
          monsters := monsters[name := drops];
          assert [] + drops == drops;
        }
        IndexDrops(name, drops);
      }
      AddConsistent(old(State()), name, drops);
    }

    /** The loop over the records of one script: each record's item lists the
        monster, appended to the item's list unless it is already there. */
    method IndexDrops(name: string, drops: seq<Drop>)
      modifies this
      ensures monsters == old(monsters)
      ensures itemsToMonsters == RegisterAll(old(itemsToMonsters), name, drops)
    {
      for k := 0 to |drops|
        invariant monsters == old(monsters)
        invariant itemsToMonsters == RegisterAll(old(itemsToMonsters), name, drops[..k])
      {
        var item := drops[k].item;
        ghost var before := itemsToMonsters;
        if item !in itemsToMonsters {
          itemsToMonsters := itemsToMonsters[item := []];
        }
        if name !in itemsToMonsters[item] {
          itemsToMonsters := itemsToMonsters[item := itemsToMonsters[item] + [name]];
        }
        assert itemsToMonsters == before[item := Listed(NamesFor(before, item), name)];
        assert drops[..k + 1][..k] == drops[..k];
      }
      assert drops[..|drops|] == drops;
    }

    /** `search_monster` on the ranked monster names: the selection, and for
        each shown monster the full list of its records. */
    method SearchMonster(ranked: seq<Match>) returns (sel: Selection, tables: seq<seq<Drop>>)
      requires forall m :: m in ranked ==> m.name in monsters
      ensures sel == Selected(ranked)
      ensures sel.Shown? ==>
        |tables| == |sel.matches| && forall k :: 0 <= k < |tables| ==>
          sel.matches[k].name in monsters && tables[k] == monsters[sel.matches[k].name]
      ensures sel.NoCloseMatch? ==> tables == []
    {
      sel := Select(ranked);
      tables := [];
      if sel.Shown? {
        SelectedShape(ranked);
        for k := 0 to |sel.matches|
          invariant |tables| == k
          invariant forall j :: 0 <= j < k ==>
            sel.matches[j].name in monsters && tables[j] == monsters[sel.matches[j].name]
        {
          assert sel.matches[k] in sel.matches;
          tables := tables + [monsters[sel.matches[k].name]];
        }
      }
    }

    /** `search_item` on the ranked item names: the selection, and for each
        shown item the rows of every monster listed for it. */
    method SearchItem(ranked: seq<Match>) returns (sel: Selection, tables: seq<seq<Row>>)
      requires Valid()
      requires forall m :: m in ranked ==> m.name in itemsToMonsters
      ensures sel == Selected(ranked)
      ensures sel.Shown? ==>
        |tables| == |sel.matches| && forall k :: 0 <= k < |tables| ==>
          sel.matches[k].name in itemsToMonsters && tables[k] == ItemRows(State(), sel.matches[k].name)
      ensures sel.NoCloseMatch? ==> tables == []
    {
      sel := Select(ranked);
      tables := [];
      if sel.Shown? {
        SelectedShape(ranked);
        forall m | m in sel.matches
          ensures m.name in itemsToMonsters && forall n :: n in itemsToMonsters[m.name] ==> n in monsters
        {
          ListedAreKnown(State(), m.name);
        }
        tables := ItemTables(sel.matches);
      }
    }

    /** The loop of `search_item` over the shown items: one table per item. */
    method ItemTables(items: seq<Match>) returns (tables: seq<seq<Row>>)
      requires forall m :: m in items ==>
        m.name in itemsToMonsters && forall n :: n in itemsToMonsters[m.name] ==> n in monsters
      ensures |tables| == |items|
      ensures forall k :: 0 <= k < |tables| ==>
        items[k].name in itemsToMonsters && tables[k] == ItemRows(State(), items[k].name)
    {
      tables := [];
      for k := 0 to |items|
        invariant |tables| == k
        invariant forall j :: 0 <= j < k ==>
          items[j].name in itemsToMonsters && tables[j] == ItemRows(State(), items[j].name)
      {
        assert items[k] in items;
        var rows := ItemTable(items[k].name);
        tables := tables + [rows];
      }
    }

    /** The two nested loops of `search_item` for one item: each listed monster,
        then each of its records for that item. */
    method ItemTable(item: string) returns (rows: seq<Row>)
      requires item in itemsToMonsters && forall n :: n in itemsToMonsters[item] ==> n in monsters
      ensures rows == ItemRows(State(), item)
    {
      var names := itemsToMonsters[item];
      rows := [];
      for j := 0 to |names|
        invariant rows == RowsFor(monsters, names[..j], item)
      {
        var part := MonsterTable(names[j], monsters[names[j]], item);
        assert names[..j + 1][..j] == names[..j];
        rows := rows + part;
      }
      assert names[..|names|] == names;
    }
  }

  /** The inner loop of `search_item`: the records of one monster that are for `item`. */
  method MonsterTable(monster: string, drops: seq<Drop>, item: string) returns (rows: seq<Row>)
    ensures rows == MonsterRows(monster, drops, item)
  {
    rows := [];
    for l := 0 to |drops|
      invariant rows == MonsterRows(monster, drops[..l], item)
    {
      assert drops[..l + 1][..l] == drops[..l];
      if drops[l].item == item {
        rows := rows + [Row(monster, drops[l])];
      }
    }
    assert drops[..|drops|] == drops;
  }
}
