/** Printing a tree of variables into the variables window, with a line map entry for every variable shown. */
module VariablePrint {
  import opened Options
  import opened Registry
  import B = Buffers
  import L = Lines

  /** The finite shape of a variable and what hangs below it. */
  datatype Tree = Tree(root: Variable, kids: seq<Tree>)

  ghost function Objects(t: Tree): set<Variable> {
    {t.root} + AllObjects(t.kids)
  }

  ghost function AllObjects(ts: seq<Tree>): set<Variable> {
    if ts == [] then {} else Objects(ts[0]) + AllObjects(ts[1..])
  }

  function Roots(ts: seq<Tree>): (r: seq<Variable>)
    ensures |r| == |ts| && forall i | 0 <= i < |r| :: r[i] == ts[i].root
  {
    seq(|ts|, i requires 0 <= i < |ts| => ts[i].root)
  }

  /** The objects are linked as the tree says, none of them twice. */
  ghost predicate Mirrors(t: Tree)
    reads Objects(t)`childs
    decreases t
  {
    t.root.childs == Roots(t.kids) && t.root !in AllObjects(t.kids) && AllMirror(t.kids)
  }

  ghost predicate AllMirror(ts: seq<Tree>)
    reads AllObjects(ts)`childs
    decreases ts
  {
    ts == [] || (Mirrors(ts[0]) && Objects(ts[0]) !! AllObjects(ts[1..]) && AllMirror(ts[1..]))
  }

  // ----- what is printed -----

  type Item = L.Item<Variable>

  const BLANK: Item := L.Item("", None)

  function Blanks(n: nat): (r: string)
    ensures |r| == n && forall c <- r :: c == ' '
  {
    seq(n, _ => ' ')
  }

  function RowText(v: Variable, lvl: nat, value: string): string
    reads v`nchilds, v`childsVisible, v`modified, v`exp
  {
    Blanks(lvl) + (if v.nchilds == 0 then "   " else if v.childsVisible then "[-]" else "[+]") + " "
    + B.Marked(v.exp + " = " + value, v.modified)
  }

  /** The value after `update`: gdb is asked only about modified variables, and may fail. */
  function Updated(v: Variable, gdb: string -> Option<string>): Option<string>
    reads v`modified, v`value
  {
    if v.modified then gdb(v.name) else Some(v.value)
  }

  /** The lines for a variable: its own, those of its children if they are shown, and a blank one behind a child's list. */
  ghost function Listing(t: Tree, lvl: nat, gdb: string -> Option<string>): seq<Item>
    reads Objects(t)`nchilds, Objects(t)`childsVisible, Objects(t)`modified, Objects(t)`exp, Objects(t)`value
    decreases t
  {
    var v := t.root;
    match Updated(v, gdb)
    case None => []
    case Some(value) =>
      [L.Item(RowText(v, lvl, value), Some(v))]
      + (if v.childsVisible then Listings(t.kids, lvl + 1, gdb) else [])
      + (if lvl == 1 && v.childsVisible then [BLANK] else [])
  }

  ghost function Listings(ts: seq<Tree>, lvl: nat, gdb: string -> Option<string>): seq<Item>
    reads AllObjects(ts)`nchilds, AllObjects(ts)`childsVisible, AllObjects(ts)`modified, AllObjects(ts)`exp,
          AllObjects(ts)`value
    decreases ts
  {
    if ts == [] then [] else Listing(ts[0], lvl, gdb) + Listings(ts[1..], lvl, gdb)
  }

  method Update(v: Variable, gdb: string -> Option<string>) returns (r: int)
    modifies v`value
    ensures r == if old(Updated(v, gdb)) == None then -1 else 0
    ensures v.value == if old(Updated(v, gdb)).Some? then old(Updated(v, gdb)).value else old(v.value)
  {
    if v.modified {
      var answer := gdb(v.name);
      if answer == None {
        return -1;
      }
      v.value := answer.value;
    }
    return 0;
  }

  lemma ListingUnfold(t: Tree, lvl: nat, gdb: string -> Option<string>)
    ensures var v := t.root;
            Listing(t, lvl, gdb) ==
            match Updated(v, gdb)
            case None => []
            case Some(value) =>
              [L.Item(RowText(v, lvl, value), Some(v))]
              + (if v.childsVisible then Listings(t.kids, lvl + 1, gdb) else [])
              + (if lvl == 1 && v.childsVisible then [BLANK] else [])
    ensures Objects(t) == {t.root} + AllObjects(t.kids)
    ensures Mirrors(t) ==> t.root !in AllObjects(t.kids) && AllMirror(t.kids) && t.root.childs == Roots(t.kids)
  {
  }

  lemma BlankLine()
    ensures L.Rendered(BLANK) == "\n" && BLANK.tag == None
  {
  }

  /** Some line stands for the variable. */
  ghost predicate Listed(items: seq<Item>, u: Variable) {
    exists item <- items :: item.tag == Some(u)
  }

  lemma ListedThen(a: seq<Item>, b: seq<Item>)
    ensures forall u :: Listed(a + b, u) <==> Listed(a, u) || Listed(b, u)
  {
  }

  lemma ListedOne(item: Item)
    ensures forall u :: Listed([item], u) <==> item.tag == Some(u)
    ensures forall u :: !Listed([], u) && !Listed([BLANK], u)
  {
    assert item in [item];
  }

  /** Only objects of the trees are listed. */
  lemma ListedWithin(t: Tree, lvl: nat, gdb: string -> Option<string>)
    ensures forall u :: Listed(Listing(t, lvl, gdb), u) ==> u in Objects(t)
  {
    hide Listing;
    TagsOfListing(t, lvl, gdb);
  }

  /** The format of a variable's line. */
  method FormatRow(v: Variable, lvl: nat) returns (text: string)
    ensures text == RowText(v, lvl, v.value)
  {
    hide Blanks;
    text := Blanks(lvl) + (if v.nchilds == 0 then "   " else if v.childsVisible then "[-]" else "[+]") + " ";
    ghost var front := text;
    text := text + (if v.modified then "\U{00B4}c" else "") + v.exp + " = " + v.value + (if v.modified then "`c" else "");
    assert text == front + B.Marked(v.exp + " = " + v.value, v.modified);
  }

  /** The line of the variable itself. */
  method PrintOwnLine(v: Variable, lvl: nat, obuf: B.DynArray, line: nat, lineMap: B.LineMap<Variable>,
                      gdb: string -> Option<string>) returns (r: int, next: nat)
    requires obuf.Valid()
    modifies obuf`idx, obuf`s, obuf.s, lineMap`v, v`value, v`modified
    ensures obuf.Valid() && (obuf.s == old(obuf.s) || fresh(obuf.s))
    ensures r == if old(Updated(v, gdb)) == None then -1 else 0
    ensures L.Printed(if r == 0 then [L.Item(old(RowText(v, lvl, Updated(v, gdb).value)), Some(v))] else [],
                    old(obuf.Text()), obuf.Text(), line, next, old(lineMap.v), lineMap.v)
    ensures if r == 0 then !v.modified && Some(v.value) == old(Updated(v, gdb))
            else v.modified == old(v.modified) && v.value == old(v.value)
  {
    next := line;
    r := Update(v, gdb);
    if r != 0 {
      L.PrintedNothing(obuf.Text(), line, lineMap.v);
      return -1, line;
    }
    L.PrintedOne(L.Item(RowText(v, lvl, v.value), Some(v)), obuf.Text(), line, lineMap.v);
    var text := FormatRow(v, lvl);
    obuf.Add(text + "\n");
    v.modified := false;
    lineMap.Add(next, v);
    next := next + 1;
  }

  /** The recursive `print`. */
  method Print(v: Variable, lvl: nat, obuf: B.DynArray, line: nat, lineMap: B.LineMap<Variable>,
               gdb: string -> Option<string>, ghost t: Tree, ghost objs: set<Variable>) returns (r: int, next: nat)
    requires t.root == v && Mirrors(t) && Objects(t) <= objs && obuf.Valid()
    modifies obuf`idx, obuf`s, obuf.s, lineMap`v, Objects(t)`value, Objects(t)`modified
    ensures obuf.Valid() && (obuf.s == old(obuf.s) || fresh(obuf.s))
    ensures L.Printed(old(Listing(t, lvl, gdb)), old(obuf.Text()), obuf.Text(), line, next, old(lineMap.v), lineMap.v)
    ensures r == if old(Updated(v, gdb)) == None then -1 else 0
    // what is listed has its new value and no mark, the rest is as before
    ensures forall u <- Objects(t) ::
              if Listed(old(Listing(t, lvl, gdb)), u) then !u.modified && Some(u.value) == old(Updated(u, gdb))
              else u.modified == old(u.modified) && u.value == old(u.value)
    decreases t, 1
  {
    hide *;
    ListingUnfold(t, lvl, gdb);
    ListedOne(BLANK);
    ghost var text0, map0, kids := obuf.Text(), lineMap.v, Listings(t.kids, lvl + 1, gdb);
    r, next := PrintOwnLine(v, lvl, obuf, line, lineMap, gdb);
    if r != 0 {
      return;
    }
    ghost var items := [L.Item(old(RowText(v, lvl, Updated(v, gdb).value)), Some(v))];
    ListedOne(items[0]);
    ListedThen(items, kids);
    ghost var below := AllObjects(t.kids);
    ghost var was := Looks(below);
    LooksAre(below, gdb);
    if v.childsVisible {
      ghost var text1, line1, map1 := obuf.Text(), next, lineMap.v;
      assert kids == Listings(t.kids, lvl + 1, gdb);
      next := PrintChilds(v, lvl + 1, obuf, next, lineMap, gdb, t.kids, objs);
      MarksAre(below, kids, was, gdb);
      L.PrintedThen(items, kids, text0, text1, obuf.Text(), line, line1, next, map0, map1, lineMap.v);
      items := items + kids;
    }
    ListedThen(items, [BLANK]);
    if lvl == 1 && v.childsVisible {
      ghost var text1, line1, map1 := obuf.Text(), next, lineMap.v;
      BlankLine();
      L.PrintedOne(BLANK, text1, next, map1);
      obuf.Add("\n");
      next := next + 1;
      L.PrintedThen(items, [BLANK], text0, text1, obuf.Text(), line, line1, next, map0, map1, lineMap.v);
      items := items + [BLANK];
    }
    assert items == old(Listing(t, lvl, gdb));
  }

  lemma ListingsUnfold(ts: seq<Tree>, i: nat, lvl: nat, gdb: string -> Option<string>)
    requires i <= |ts| && AllMirror(ts[i..])
    ensures i < |ts| ==>
              && Mirrors(ts[i]) && AllMirror(ts[i + 1..]) && Objects(ts[i]) !! AllObjects(ts[i + 1..])
              && Listings(ts[i..], lvl, gdb) == Listing(ts[i], lvl, gdb) + Listings(ts[i + 1..], lvl, gdb)
              && AllObjects(ts[i..]) == Objects(ts[i]) + AllObjects(ts[i + 1..])
    ensures i == |ts| ==> Listings(ts[i..], lvl, gdb) == []
  {
    if i < |ts| {
      assert ts[i..][0] == ts[i] && ts[i..][1..] == ts[i + 1..];
    }
  }

  datatype Look = Look(modified: bool, value: string)

  /** What is known of some variables before they are printed. */
  ghost function Looks(us: set<Variable>): map<Variable, Look>
    reads us`modified, us`value
  {
    map u | u in us :: Look(u.modified, u.value)
  }

  /** What is listed has its new value and no mark, the rest is as it was. */
  ghost predicate Marks(us: set<Variable>, items: seq<Item>, was: map<Variable, Look>, gdb: string -> Option<string>)
    reads us`modified, us`value
  {
    us <= was.Keys &&
    forall u <- us ::
      if Listed(items, u) then !u.modified && Some(u.value) == (if was[u].modified then gdb(u.name) else Some(was[u].value))
      else u.modified == was[u].modified && u.value == was[u].value
  }

  lemma MarksAre(us: set<Variable>, items: seq<Item>, was: map<Variable, Look>, gdb: string -> Option<string>)
    ensures Marks(us, items, was, gdb) <==>
            us <= was.Keys &&
            forall u <- us ::
              if Listed(items, u) then
                !u.modified && Some(u.value) == (if was[u].modified then gdb(u.name) else Some(was[u].value))
              else u.modified == was[u].modified && u.value == was[u].value
  {
  }

  lemma LooksAre(us: set<Variable>, gdb: string -> Option<string>)
    ensures Looks(us).Keys == us && forall u <- us :: Looks(us)[u] == Look(u.modified, u.value)
    ensures forall u <- us :: Updated(u, gdb) == if u.modified then gdb(u.name) else Some(u.value)
  {
  }

  /** The trees from `i` on are still to be printed, behind the lines `done`. */
  ghost predicate Unprinted(ts: seq<Tree>, i: nat, done: seq<Item>, todo: seq<Item>, lvl: nat, gdb: string -> Option<string>)
    reads AllObjects(ts)`childs, AllObjects(ts)`nchilds, AllObjects(ts)`childsVisible, AllObjects(ts)`modified,
          AllObjects(ts)`exp, AllObjects(ts)`value
  {
    && i <= |ts| && AllObjects(ts[i..]) <= AllObjects(ts) && AllMirror(ts[i..]) && todo == Listings(ts[i..], lvl, gdb)
    && forall u <- AllObjects(ts[i..]) :: !Listed(done, u)
  }

  lemma AllUnprinted(ts: seq<Tree>, lvl: nat, gdb: string -> Option<string>)
    requires AllMirror(ts)
    ensures Unprinted(ts, 0, [], Listings(ts, lvl, gdb), lvl, gdb)
    ensures Marks(AllObjects(ts), [], Looks(AllObjects(ts)), gdb)
  {
    hide AllMirror, AllObjects, Listings;
    ListedOne(BLANK);
    assert ts[0..] == ts;
  }

  lemma NoneUnprinted(ts: seq<Tree>, i: nat, done: seq<Item>, todo: seq<Item>, lvl: nat, gdb: string -> Option<string>)
    requires Unprinted(ts, i, done, todo, lvl, gdb) && i == |ts|
    ensures todo == []
  {
  }

  lemma UnprintedMeans(ts: seq<Tree>, i: nat, done: seq<Item>, todo: seq<Item>, lvl: nat, gdb: string -> Option<string>)
    requires Unprinted(ts, i, done, todo, lvl, gdb) && i < |ts|
    ensures Mirrors(ts[i]) && AllMirror(ts[i + 1..]) && Objects(ts[i]) !! AllObjects(ts[i + 1..])
    ensures Objects(ts[i]) <= AllObjects(ts) && AllObjects(ts[i + 1..]) <= AllObjects(ts)
    ensures todo == Listing(ts[i], lvl, gdb) + Listings(ts[i + 1..], lvl, gdb)
    ensures forall u <- Objects(ts[i]) + AllObjects(ts[i + 1..]) :: !Listed(done, u)
  {
    hide AllMirror, Mirrors, Listings, Listing, Objects, AllObjects, Listed;
    ListingsUnfold(ts, i, lvl, gdb);
  }

  lemma UnprintedIs(ts: seq<Tree>, i: nat, done: seq<Item>, todo: seq<Item>, lvl: nat, gdb: string -> Option<string>)
    requires i <= |ts| && AllObjects(ts[i..]) <= AllObjects(ts) && AllMirror(ts[i..]) && todo == Listings(ts[i..], lvl, gdb)
    requires forall u <- AllObjects(ts[i..]) :: !Listed(done, u)
    ensures Unprinted(ts, i, done, todo, lvl, gdb)
  {
  }

  /** One round of a loop over trees. */
  method PrintNext(v: Variable, lvl: nat, obuf: B.DynArray, line: nat, lineMap: B.LineMap<Variable>,
                   gdb: string -> Option<string>, ghost ts: seq<Tree>, ghost i: nat, ghost objs: set<Variable>,
                   ghost done: seq<Item>, ghost todo: seq<Item>, ghost was: map<Variable, Look>)
    returns (next: nat, ghost item: seq<Item>, ghost rest: seq<Item>)
    requires Unprinted(ts, i, done, todo, lvl, gdb) && i < |ts| && v == ts[i].root && AllObjects(ts) <= objs && obuf.Valid()
    requires Marks(AllObjects(ts), done, was, gdb)
    modifies obuf`idx, obuf`s, obuf.s, lineMap`v, AllObjects(ts)`value, AllObjects(ts)`modified
    ensures obuf.Valid() && (obuf.s == old(obuf.s) || fresh(obuf.s))
    ensures todo == item + rest && Unprinted(ts, i + 1, done + item, rest, lvl, gdb)
    ensures L.Printed(item, old(obuf.Text()), obuf.Text(), line, next, old(lineMap.v), lineMap.v)
    ensures Marks(AllObjects(ts), done + item, was, gdb)
    decreases ts[i], 2
  {
    hide Unprinted, Listing, Listings, AllMirror, Mirrors, Objects, AllObjects, Listed, L.Printed;
    UnprintedMeans(ts, i, done, todo, lvl, gdb);
    item, rest := Listing(ts[i], lvl, gdb), Listings(ts[i + 1..], lvl, gdb);
    ListedWithin(ts[i], lvl, gdb);
    ListedThen(done, item);
    var r;
    r, next := Print(v, lvl, obuf, line, lineMap, gdb, ts[i], objs);
    UnprintedIs(ts, i + 1, done + item, rest, lvl, gdb);
  }

  /** The loop over the children; what a child reports is ignored. */
  method PrintChilds(v: Variable, lvl: nat, obuf: B.DynArray, line: nat, lineMap: B.LineMap<Variable>,
                     gdb: string -> Option<string>, ghost ts: seq<Tree>, ghost objs: set<Variable>) returns (next: nat)
    requires v.childs == Roots(ts) && AllMirror(ts) && AllObjects(ts) <= objs && obuf.Valid()
    modifies obuf`idx, obuf`s, obuf.s, lineMap`v, AllObjects(ts)`value, AllObjects(ts)`modified
    ensures obuf.Valid() && (obuf.s == old(obuf.s) || fresh(obuf.s))
    ensures L.Printed(old(Listings(ts, lvl, gdb)), old(obuf.Text()), obuf.Text(), line, next, old(lineMap.v), lineMap.v)
    ensures Marks(AllObjects(ts), old(Listings(ts, lvl, gdb)), old(Looks(AllObjects(ts))), gdb)
    decreases ts, 0
  {
    hide *;
    next := line;
    ghost var text0, map0, was := obuf.Text(), lineMap.v, Looks(AllObjects(ts));
    L.PrintedNothing(text0, line, map0);
    AllUnprinted(ts, lvl, gdb);
    ghost var all, done, todo := Listings(ts, lvl, gdb), [], Listings(ts, lvl, gdb);
    var i := 0;
    while i < |v.childs|
      invariant 0 <= i <= |v.childs| == |ts| && v.childs == Roots(ts)
      invariant obuf.Valid() && (obuf.s == old(obuf.s) || fresh(obuf.s))
      invariant all == done + todo && Unprinted(ts, i, done, todo, lvl, gdb) && Marks(AllObjects(ts), done, was, gdb)
      invariant L.Printed(done, text0, obuf.Text(), line, next, map0, lineMap.v)
    {
      ghost var text1, line1, map1 := obuf.Text(), next, lineMap.v;
      ghost var item, rest;
      TreeInside(ts, i);
      next, item, rest := PrintNext(v.childs[i], lvl, obuf, next, lineMap, gdb, ts, i, objs, done, todo, was);
      L.PrintedThen(done, item, text0, text1, obuf.Text(), line, line1, next, map0, map1, lineMap.v);
      assert all == (done + item) + rest;
      done, todo := done + item, rest;
      i := i + 1;
    }
    NoneUnprinted(ts, i, done, todo, lvl, gdb);
    assert done == all;
  }

  lemma TreeInside(ts: seq<Tree>, i: nat)
    requires i < |ts|
    ensures ts[i] in ts
  {
  }

  // ----- order -----

  /** The variables on show, a parent before its children. */
  ghost function Preorder(t: Tree): seq<Variable>
    reads Objects(t)`childsVisible
    decreases t
  {
    [t.root] + if t.root.childsVisible then Preorders(t.kids) else []
  }

  ghost function Preorders(ts: seq<Tree>): seq<Variable>
    reads AllObjects(ts)`childsVisible
    decreases ts
  {
    if ts == [] then [] else Preorder(ts[0]) + Preorders(ts[1..])
  }

  function Shown(items: seq<Item>): seq<Variable> {
    if items == [] then [] else (if items[0].tag.Some? then [items[0].tag.value] else []) + Shown(items[1..])
  }

  lemma ShownCons(item: Item, rest: seq<Item>)
    ensures Shown([item] + rest) == (if item.tag.Some? then [item.tag.value] else []) + Shown(rest)
    ensures Shown([]) == []
  {
    assert ([item] + rest)[1..] == rest;
  }

  lemma {:induction false} ShownConcat(a: seq<Item>, b: seq<Item>)
    ensures Shown(a + b) == Shown(a) + Shown(b)
  {
    hide Shown;
    if a == [] {
      ShownCons(BLANK, []);
      assert a + b == b;
    } else {
      var rest := a[1..];
      assert a == [a[0]] + rest && a + b == [a[0]] + (rest + b);
      ShownCons(a[0], rest);
      ShownCons(a[0], rest + b);
      ShownConcat(rest, b);
    }
  }

  /** When gdb answers, the listing shows the visible variables in preorder. */
  lemma {:induction false} ListsInPreorder(t: Tree, lvl: nat, gdb: string -> Option<string>)
    requires forall v <- Objects(t) :: Updated(v, gdb).Some?
    ensures Shown(Listing(t, lvl, gdb)) == Preorder(t)
    decreases t, 1
  {
    hide Listing, Listings, Shown;
    ListingUnfold(t, lvl, gdb);
    var v := t.root;
    var own, kids := [L.Item(RowText(v, lvl, Updated(v, gdb).value), Some(v))], Listings(t.kids, lvl + 1, gdb);
    ShownOwn(own[0]);
    ShownConcat(own, if v.childsVisible then kids else []);
    ShownConcat(own + (if v.childsVisible then kids else []), if lvl == 1 && v.childsVisible then [BLANK] else []);
    if v.childsVisible {
      ListAllInPreorder(t.kids, lvl + 1, gdb);
    }
  }

  lemma ShownOwn(item: Item)
    ensures Shown([item]) == if item.tag.Some? then [item.tag.value] else []
    ensures Shown([BLANK]) == [] && Shown([]) == []
  {
  }

  lemma {:induction false} ListAllInPreorder(ts: seq<Tree>, lvl: nat, gdb: string -> Option<string>)
    requires forall v <- AllObjects(ts) :: Updated(v, gdb).Some?
    ensures Shown(Listings(ts, lvl, gdb)) == Preorders(ts)
    decreases ts, 0
  {
    hide Listing, Shown;
    if ts == [] {
      ShownOwn(BLANK);
    } else {
      ListsInPreorder(ts[0], lvl, gdb);
      ListAllInPreorder(ts[1..], lvl, gdb);
      ShownConcat(Listing(ts[0], lvl, gdb), Listings(ts[1..], lvl, gdb));
    }
  }

  // ----- newlines and percent signs -----

  /** The characters that come from expressions and values only. */
  predicate Foreign(c: char) {
    c == '\n' || c == '%'
  }

  /** Neither the expression nor the value of a variable on show holds `c`; one whose value gdb refuses is not on show. */
  ghost predicate TreeWithout(t: Tree, c: char, gdb: string -> Option<string>)
    reads Objects(t)`childsVisible, Objects(t)`modified, Objects(t)`exp, Objects(t)`value
    decreases t
  {
    match Updated(t.root, gdb)
    case None => true
    case Some(value) =>
      c !in t.root.exp && c !in value && (t.root.childsVisible ==> TreesWithout(t.kids, c, gdb))
  }

  ghost predicate TreesWithout(ts: seq<Tree>, c: char, gdb: string -> Option<string>)
    reads AllObjects(ts)`childsVisible, AllObjects(ts)`modified, AllObjects(ts)`exp, AllObjects(ts)`value
    decreases ts
  {
    ts == [] || (TreeWithout(ts[0], c, gdb) && TreesWithout(ts[1..], c, gdb))
  }

  lemma CharsOfRow(v: Variable, lvl: nat, value: string, c: char)
    requires Foreign(c)
    ensures c in RowText(v, lvl, value) <==> c in v.exp || c in value
  {
    hide Blanks, B.Marked;
    var front := Blanks(lvl) + (if v.nchilds == 0 then "   " else if v.childsVisible then "[-]" else "[+]") + " ";
    assert c !in front;
    CharsOfMarked(v.exp + " = " + value, v.modified, c);
    assert RowText(v, lvl, value) == front + B.Marked(v.exp + " = " + value, v.modified);
  }

  lemma CharsOfMarked(text: string, modified: bool, c: char)
    requires Foreign(c)
    ensures c in B.Marked(text, modified) <==> c in text
  {
  }

  lemma WithoutIs(t: Tree, c: char, gdb: string -> Option<string>)
    ensures TreeWithout(t, c, gdb) <==>
            match Updated(t.root, gdb)
            case None => true
            case Some(value) =>
              c !in t.root.exp && c !in value && (t.root.childsVisible ==> TreesWithout(t.kids, c, gdb))
  {
  }

  /** A listing is without newlines, or percent signs, exactly if expressions and values on show are. */
  lemma {:induction false} CharsOfListing(t: Tree, lvl: nat, gdb: string -> Option<string>, c: char)
    requires Foreign(c)
    ensures L.Without(Listing(t, lvl, gdb), c) <==> TreeWithout(t, c, gdb)
    decreases t, 1
  {
    hide Listing, Listings, TreeWithout, TreesWithout, L.Without, RowText;
    ListingUnfold(t, lvl, gdb);
    WithoutIs(t, c, gdb);
    L.NoItems<Variable>(c);
    L.WithoutOne(BLANK, c);
    var v := t.root;
    if Updated(v, gdb).Some? {
      var own := L.Item(RowText(v, lvl, Updated(v, gdb).value), Some(v));
      var kids := if v.childsVisible then Listings(t.kids, lvl + 1, gdb) else [];
      CharsOfRow(v, lvl, Updated(v, gdb).value, c);
      L.WithoutOne(own, c);
      if v.childsVisible {
        CharsOfListings(t.kids, lvl + 1, gdb, c);
      }
      L.WithoutConcat([own], kids, c);
      L.WithoutConcat([own] + kids, if lvl == 1 && v.childsVisible then [BLANK] else [], c);
    }
  }

  lemma {:induction false} CharsOfListings(ts: seq<Tree>, lvl: nat, gdb: string -> Option<string>, c: char)
    requires Foreign(c)
    ensures L.Without(Listings(ts, lvl, gdb), c) <==> TreesWithout(ts, c, gdb)
    decreases ts, 0
  {
    hide Listing, TreeWithout, L.Without;
    if ts == [] {
      L.NoItems<Variable>(c);
    } else {
      CharsOfListing(ts[0], lvl, gdb, c);
      CharsOfListings(ts[1..], lvl, gdb, c);
      L.WithoutConcat(Listing(ts[0], lvl, gdb), Listings(ts[1..], lvl, gdb), c);
    }
  }

  /** The listings hold variables of the trees only. */
  lemma {:induction false} TagsOfListing(t: Tree, lvl: nat, gdb: string -> Option<string>)
    ensures forall item <- Listing(t, lvl, gdb) :: item.tag.Some? ==> item.tag.value in Objects(t)
    decreases t, 1
  {
    hide Listing, Listings, RowText;
    ListingUnfold(t, lvl, gdb);
    if t.root.childsVisible {
      TagsOfListings(t.kids, lvl + 1, gdb);
    }
  }

  lemma {:induction false} TagsOfListings(ts: seq<Tree>, lvl: nat, gdb: string -> Option<string>)
    ensures forall item <- Listings(ts, lvl, gdb) :: item.tag.Some? ==> item.tag.value in AllObjects(ts)
    decreases ts, 0
  {
    hide Listing;
    if ts != [] {
      TagsOfListing(ts[0], lvl, gdb);
      TagsOfListings(ts[1..], lvl, gdb);
    }
  }

  // ----- the variables window -----

  /** `names` are the keys of the user's variables in the order of the map, `ts` their trees. */
  ghost predicate IsForest(reg: Vars, names: seq<string>, ts: seq<Tree>)
    reads reg, reg.live`childs, AllObjects(ts)`childs
  {
    && |names| == |ts| && AllMirror(ts) && AllObjects(ts) <= reg.live
    && (forall i | 0 <= i < |names| :: names[i] in reg.user && reg.user[names[i]] == ts[i].root && ts[i].root.parent == null)
  }

  /** The roots, from the next line on. */
  method PrintRoots(reg: Vars, names: seq<string>, obuf: B.DynArray, lineMap: B.LineMap<Variable>, first: nat,
                    gdb: string -> Option<string>, ghost ts: seq<Tree>, ghost objs: set<Variable>) returns (line: nat)
    requires IsForest(reg, names, ts) && obuf.Valid() && AllObjects(ts) <= objs
    modifies obuf`idx, obuf`s, obuf.s, lineMap`v, AllObjects(ts)`value, AllObjects(ts)`modified
    ensures obuf.Valid() && (obuf.s == old(obuf.s) || fresh(obuf.s))
    ensures L.Printed(old(Listings(ts, 0, gdb)), old(obuf.Text()), obuf.Text(), first, line, old(lineMap.v), lineMap.v)
    ensures Marks(AllObjects(ts), old(Listings(ts, 0, gdb)), old(Looks(AllObjects(ts))), gdb)
  {
    hide *;
    ghost var text0, map0, was := obuf.Text(), lineMap.v, Looks(AllObjects(ts));
    ForestMeans(reg, names, ts);
    line := first;
    L.PrintedNothing(text0, first, map0);
    AllUnprinted(ts, 0, gdb);
    ghost var all := Listings(ts, 0, gdb);
    ghost var done, todo: seq<Item> := [], all;
    var i := 0;
    while i < |names|
      invariant 0 <= i <= |names| == |ts| && IsForest(reg, names, ts)
      invariant obuf.Valid() && (obuf.s == old(obuf.s) || fresh(obuf.s))
      invariant all == done + todo && Unprinted(ts, i, done, todo, 0, gdb) && Marks(AllObjects(ts), done, was, gdb)
      invariant L.Printed(done, text0, obuf.Text(), first, line, map0, lineMap.v)
    {
      ForestAt(reg, names, ts, i);
      var v := reg.user[names[i]];
      if v.parent == null {
        ghost var text1, line1, map1 := obuf.Text(), line, lineMap.v;
        ghost var item, rest;
        line, item, rest := PrintNext(v, 0, obuf, line, lineMap, gdb, ts, i, objs, done, todo, was);
        L.PrintedThen(done, item, text0, text1, obuf.Text(), first, line1, line, map0, map1, lineMap.v);
        assert all == (done + item) + rest;
        done, todo := done + item, rest;
      }
      i := i + 1;
    }
    NoneUnprinted(ts, i, done, todo, 0, gdb);
    assert done == all;
  }

  /**
   * `cmd_var_print`: the roots one after the other into an emptied buffer, unless the window is missing. Every line
   * counted for a variable leads back to it. The counter is in step with the text exactly if no expression or value on
   * show holds a newline, and the window shows the text exactly if none holds a percent sign. `was` is what it showed.
   */
  method PrintAll(reg: Vars, names: seq<string>, present: bool, obuf: B.DynArray, lineMap: B.LineMap<Variable>,
                  gdb: string -> Option<string>, was: Option<string>, ghost ts: seq<Tree>)
    returns (line: nat, window: Option<string>)
    requires IsForest(reg, names, ts) && obuf.Valid()
    modifies obuf`idx, obuf`s, obuf.s, lineMap`v, AllObjects(ts)`value, AllObjects(ts)`modified
    ensures obuf.Valid()
    ensures !present ==> unchanged(obuf, lineMap, reg.live) && obuf.s[..] == old(obuf.s[..]) && window == was
    ensures present ==> L.Printed(old(Listings(ts, 0, gdb)), "", obuf.Text(), 1, line, [], lineMap.v)
    ensures present ==>
              && line <= 1 + B.Newlines(obuf.Text()) && B.Increasing(lineMap.v)
              && (line == 1 + B.Newlines(obuf.Text()) <==> old(TreesWithout(ts, '\n', gdb)))
              && var items := old(Listings(ts, 0, gdb));
                 forall k | 0 <= k < |items| && items[k].tag.Some? :: B.Lookup(lineMap.v, 1 + k) == items[k].tag
    ensures present ==> forall e <- lineMap.v :: e.data in reg.live
    // what is listed has its new value and no mark, the rest is as before
    ensures present ==> forall u <- AllObjects(ts) ::
              if Listed(old(Listings(ts, 0, gdb)), u) then !u.modified && Some(u.value) == old(Updated(u, gdb))
              else u.modified == old(u.modified) && u.value == old(u.value)
    ensures present ==>
              && window == B.Formatted(obuf.Text())
              && (window == Some(obuf.Text()) <==> old(TreesWithout(ts, '%', gdb)))
  {
    hide *;
    if !present {
      return 1, was;
    }
    ghost var all, objs := Listings(ts, 0, gdb), reg.live;
    ghost var inStep, asIs := TreesWithout(ts, '\n', gdb), TreesWithout(ts, '%', gdb);
    CharsOnShow(ts, gdb);
    TagsOfListings(ts, 0, gdb);
    ForestMeans(reg, names, ts);
    ghost var us, was0 := AllObjects(ts), Looks(AllObjects(ts));
    LooksAre(us, gdb);
    lineMap.Clear();
    Emptied(obuf);
    assert all == Listings(ts, 0, gdb);
    line := PrintRoots(reg, names, obuf, lineMap, 1, gdb, ts, objs);
    MarksAre(us, all, was0, gdb);
    L.ObjectsAreFound(all, obuf.Text(), line, lineMap.v);
    ShownText(all, obuf.Text(), line, lineMap.v);
    TextIs(obuf);
    window := B.Formatted(obuf.s[..obuf.idx]);
  }

  lemma CharsOnShow(ts: seq<Tree>, gdb: string -> Option<string>)
    ensures L.Plain(Listings(ts, 0, gdb)) <==> TreesWithout(ts, '\n', gdb)
    ensures L.Without(Listings(ts, 0, gdb), '%') <==> TreesWithout(ts, '%', gdb)
  {
    hide Listings, TreesWithout, L.Without;
    CharsOfListings(ts, 0, gdb, '\n');
    CharsOfListings(ts, 0, gdb, '%');
  }

  /** What the window makes of the text of some items, and where their entries come from. */
  lemma ShownText(items: seq<Item>, text: string, line: nat, m: seq<B.Entry<Variable>>)
    requires L.Printed(items, "", text, 1, line, [], m)
    ensures B.Formatted(text) == Some(text) <==> L.Without(items, '%')
    ensures forall e <- m :: exists item <- items :: item.tag == Some(e.data)
  {
    hide L.Render, L.Entries, L.Without, B.Formatted;
    L.RenderedChars(items, '%');
    L.EntriesFrom(items, 1);
    B.FormattedIsText(text);
  }

  lemma TextIs(obuf: B.DynArray)
    requires obuf.Valid()
    ensures obuf.idx <= obuf.s.Length && obuf.Text() == obuf.s[..obuf.idx]
  {
  }

  method Emptied(obuf: B.DynArray)
    requires obuf.Valid()
    modifies obuf`idx, obuf`s, obuf.s
    ensures obuf.Valid() && obuf.s == old(obuf.s) && obuf.Text() == ""
  {
    obuf.Clear();
  }

  /** The roots are where they were while only values change. */
  lemma ForestAt(reg: Vars, names: seq<string>, ts: seq<Tree>, i: nat)
    requires IsForest(reg, names, ts) && i < |names|
    ensures names[i] in reg.user && i < |ts| && reg.user[names[i]] == ts[i].root && ts[i].root.parent == null
  {
  }

  lemma ForestMeans(reg: Vars, names: seq<string>, ts: seq<Tree>)
    requires IsForest(reg, names, ts)
    ensures |names| == |ts| && AllMirror(ts) && AllObjects(ts) <= reg.live
    ensures forall i | 0 <= i < |names| ::
              names[i] in reg.user && reg.user[names[i]] == ts[i].root && ts[i].root.parent == null
  {
  }

  // ----- every registered variable has a tree -----

  lemma TreeParts(t: Tree)
    requires t.root.childs == Roots(t.kids) && t.root !in AllObjects(t.kids) && AllMirror(t.kids)
    ensures Mirrors(t) && Objects(t) == {t.root} + AllObjects(t.kids)
  {
  }

  lemma ForestParts(t: Tree, ts: seq<Tree>)
    requires Mirrors(t) && AllMirror(ts) && Objects(t) !! AllObjects(ts)
    ensures AllMirror([t] + ts) && AllObjects([t] + ts) == Objects(t) + AllObjects(ts)
    ensures Roots([t] + ts) == [t.root] + Roots(ts)
  {
    assert ([t] + ts)[1..] == ts;
  }

  /** Different live children of `v`. */
  ghost predicate Siblings(reg: Vars, v: Variable, kids: seq<Variable>)
    reads reg
  {
    (forall c <- kids :: c in reg.live && c.parent == v && reg.Subtree(c) < reg.Subtree(v)) &&
    (forall i, j | 0 <= i < j < |kids| :: kids[i] != kids[j])
  }

  /** What the registry's invariant says about one object and its children. */
  lemma Family(reg: Vars, v: Variable)
    requires reg.Valid() && v in reg.live
    ensures reg.Subtree(v) == {v} + Under(reg.live, v.childs) && v !in Under(reg.live, v.childs)
    ensures Siblings(reg, v, v.childs)
  {
    hide Under, PathsOk;
    reg.ValidMeans();
    KidsOf(v, reg.live, reg.live);
    reg.InFamily(v);
    forall c <- v.childs
      ensures reg.Subtree(c) < reg.Subtree(v)
    {
      forall u <- reg.Subtree(c)
        ensures u in reg.Subtree(v) && u != v
      {
        BelowChild(reg.live, v, c, u);
      }
      assert v in reg.Subtree(v) && v !in reg.Subtree(c);
    }
  }

  /** The first of some siblings has nothing in common with the others, and all is below one of them. */
  lemma FirstApart(reg: Vars, v: Variable, kids: seq<Variable>)
    requires reg.Valid() && kids != [] && Siblings(reg, v, kids)
    ensures reg.Subtree(kids[0]) !! Under(reg.live, kids[1..])
    ensures Under(reg.live, kids) == reg.Subtree(kids[0]) + Under(reg.live, kids[1..])
    ensures Siblings(reg, v, kids[1..]) && kids[0] in reg.live && reg.Subtree(kids[0]) < reg.Subtree(v)
  {
    hide PathsOk;
    var rest := kids[1..];
    assert kids == [kids[0]] + rest;
    forall u <- reg.Subtree(kids[0])
      ensures u !in Under(reg.live, rest)
    {
      if c :| c in rest && c in u.path {
        ChildPath(reg.live, c);
        ChildPath(reg.live, kids[0]);
        AllPathsOk(reg.live, u);
        SameDepth(reg.live, u, c, kids[0]);
        assert false;
      }
    }
  }

  /** Every variable of an intact registry is the root of a finite tree of exactly the objects below it. */
  lemma {:induction false} TreeOf(reg: Vars, v: Variable) returns (t: Tree)
    requires reg.Valid() && v in reg.live
    ensures t.root == v && Mirrors(t) && Objects(t) == reg.Subtree(v)
    decreases reg.Subtree(v), 1, 0
  {
    hide *;
    Family(reg, v);
    var ts := TreesOf(reg, v, v.childs);
    t := Tree(v, ts);
    TreeParts(t);
  }

  lemma {:induction false} TreesOf(reg: Vars, v: Variable, kids: seq<Variable>) returns (ts: seq<Tree>)
    requires reg.Valid() && Siblings(reg, v, kids)
    ensures Roots(ts) == kids && AllMirror(ts) && AllObjects(ts) == Under(reg.live, kids)
    decreases reg.Subtree(v), 0, |kids|
  {
    hide *;
    if kids == [] {
      ts := [];
      NoTrees(reg.live);
    } else {
      FirstApart(reg, v, kids);
      var t := TreeOf(reg, kids[0]);
      ts := TreesOf(reg, v, kids[1..]);
      ForestParts(t, ts);
      ts := [t] + ts;
    }
  }

  lemma NoTrees(live: set<Variable>)
    ensures Roots([]) == [] && AllMirror([]) && AllObjects([]) == {} == Under(live, [])
  {
  }

  // ----- every intact registry can be printed -----

  /** The objects of some keys of the user's variables: different live roots. */
  ghost predicate UserRoots(reg: Vars, names: seq<string>, roots: seq<Variable>)
    reads reg
  {
    && |roots| == |names| && (forall r <- roots :: r in reg.live && r.parent == null)
    && (forall i | 0 <= i < |names| :: names[i] in reg.user && reg.user[names[i]] == roots[i])
    && (forall i, j | 0 <= i < j < |roots| :: roots[i] != roots[j])
  }

  lemma RootsOf(reg: Vars, names: seq<string>) returns (roots: seq<Variable>)
    requires reg.Valid() && (forall n <- names :: n in reg.user)
    requires forall i, j | 0 <= i < j < |names| :: names[i] != names[j]
    ensures UserRoots(reg, names, roots)
  {
    hide *;
    var user := reg.user;
    roots := seq(|names|, i requires 0 <= i < |names| => assert names[i] in names; user[names[i]]);
    forall i | 0 <= i < |names|
      ensures roots[i] in reg.live && roots[i].parent == null && roots[i].name == names[i]
    {
      reg.UserRoot(names[i]);
    }
    forall i, j | 0 <= i < j < |roots|
      ensures roots[i] != roots[j]
    {
      assert roots[i].name == names[i] && roots[j].name == names[j];
    }
    AreUserRoots(reg, names, roots);
  }

  lemma AreUserRoots(reg: Vars, names: seq<string>, roots: seq<Variable>)
    requires |roots| == |names|
    requires forall i | 0 <= i < |names| ::
               names[i] in reg.user && reg.user[names[i]] == roots[i] && roots[i] in reg.live && roots[i].parent == null
    requires forall i, j | 0 <= i < j < |roots| :: roots[i] != roots[j]
    ensures UserRoots(reg, names, roots)
  {
  }

  /** Different roots have nothing below them in common. */
  lemma FirstRootApart(live: set<Variable>, roots: seq<Variable>)
    requires PathsOk(live) && roots != [] && forall r <- roots :: r in live && r.parent == null
    requires forall i, j | 0 <= i < j < |roots| :: roots[i] != roots[j]
    ensures (set u | u in live && roots[0] in u.path) !! Under(live, roots[1..])
    ensures Under(live, roots) == (set u | u in live && roots[0] in u.path) + Under(live, roots[1..])
  {
    hide PathsOk;
    var rest := roots[1..];
    assert roots == [roots[0]] + rest;
    forall u | u in live && roots[0] in u.path
      ensures u !in Under(live, rest)
    {
      if c :| c in rest && c in u.path {
        AllPathsOk(live, u);
        AllPathsOk(live, c);
        AllPathsOk(live, roots[0]);
        SameDepth(live, u, c, roots[0]);
        assert false;
      }
    }
  }

  lemma {:induction false} TreesOfRoots(reg: Vars, roots: seq<Variable>) returns (ts: seq<Tree>)
    requires reg.Valid() && forall r <- roots :: r in reg.live && r.parent == null
    requires forall i, j | 0 <= i < j < |roots| :: roots[i] != roots[j]
    ensures Roots(ts) == roots && AllMirror(ts) && AllObjects(ts) == Under(reg.live, roots)
  {
    hide *;
    if roots == [] {
      ts := [];
      NoTrees(reg.live);
    } else {
      assert PathsOk(reg.live) by { reg.ValidPaths(); }
      FirstRootApart(reg.live, roots);
      var t := TreeOf(reg, roots[0]);
      SubtreeIs(reg, roots[0]);
      ts := TreesOfRoots(reg, roots[1..]);
      ForestParts(t, ts);
      ts := [t] + ts;
    }
  }

  lemma SubtreeIs(reg: Vars, v: Variable)
    ensures reg.Subtree(v) == set u | u in reg.live && v in u.path
  {
  }

  /** The user's variables of an intact registry form a forest, in every order of their names. */
  lemma ForestOf(reg: Vars, names: seq<string>) returns (ts: seq<Tree>)
    requires reg.Valid() && (forall n <- names :: n in reg.user)
    requires forall i, j | 0 <= i < j < |names| :: names[i] != names[j]
    ensures IsForest(reg, names, ts)
  {
    hide AllMirror, AllObjects, Mirrors, Objects, PathsOk;
    var roots := RootsOf(reg, names);
    ts := TreesOfRoots(reg, roots);
  }

  // ----- deleting a variable -----

  /** How the DELETE command ends; `Freed` is an entry whose variable does not exist any more. */
  datatype Deletion = NoVariable | Freed | Refused | Done

  /** The keys of a map in some order. */
  ghost predicate Enumerates(order: set<string> -> seq<string>) {
    forall keys: set<string> ::
      (forall n :: n in order(keys) <==> n in keys) &&
      forall i, j | 0 <= i < j < |order(keys)| :: order(keys)[i] != order(keys)[j]
  }

  /** The object that a variable hangs below. */
  ghost function Root(v: Variable): Variable {
    if v.path == [] then v else v.path[0]
  }

  /** The climb from a variable to its root. */
  method Climb(reg: Vars, v: Variable) returns (root: Variable)
    requires reg.Valid() && v in reg.live
    ensures root == Root(v) && root in reg.live && root.parent == null
    ensures v in reg.Subtree(root) && reg.Subtree(root) <= reg.live
  {
    hide PathsOk, PathOk, ChildsOk, Vars.Named, Vars.Origins;
    root := v;
    reg.ValidPaths();
    AllPathsOk(reg.live, v);
    reg.InFamily(v);
    while root.parent != null
      invariant root in reg.live && root in v.path
      decreases |root.path|
    {
      ChildPath(reg.live, root);
      PathPrefix(reg.live, v, root);
      root := root.parent;
    }
    RootIs(reg.live, v, root);
  }

  lemma RootIs(live: set<Variable>, v: Variable, root: Variable)
    requires PathsOk(live) && v in live && root in v.path && root.parent == null
    ensures root == Root(v)
  {
    assert PathOk(v, live);
    assert PathOk(root, live);
  }

  /** Some entry stands for a variable that does not exist any more. */
  ghost predicate Dangles(reg: Vars, lineMap: B.LineMap<Variable>)
    reads reg, lineMap
  {
    exists e <- lineMap.v :: e.data !in reg.live
  }

  /** How the command ends for what the line leads to, if gdb accepts the deletion or not. */
  ghost function Ending(reg: Vars, found: Option<Variable>, accepted: bool): Deletion
    reads reg, reg.live`refcnt
  {
    if found == None then NoVariable
    else if found.value !in reg.live then Freed
    else if Root(found.value) in reg.live && Root(found.value).refcnt == 1 && !accepted then Refused
    else Done
  }

  /** What is left when the release went through. */
  ghost function Remaining(reg: Vars, found: Option<Variable>): set<Variable>
    reads reg, reg.live`refcnt
  {
    if found.Some? && Root(found.value) in reg.live && Root(found.value).refcnt == 1 then
      reg.live - reg.Subtree(Root(found.value))
    else reg.live
  }

  /**
   * The DELETE command for the variable at a screen line: its root is released. The entries of a deleted tree go when the
   * window is printed again; without the window they stay, and the next command for such a line meets a freed variable.
   */
  method DeleteAt(reg: Vars, line: nat, accepted: bool, order: set<string> -> seq<string>, present: bool, obuf: B.DynArray,
                  lineMap: B.LineMap<Variable>, gdb: string -> Option<string>, was: Option<string>)
    returns (r: Deletion, window: Option<string>)
    requires reg.Valid() && obuf.Valid() && Enumerates(order)
    modifies reg, reg.live, obuf`idx, obuf`s, obuf.s, lineMap`v
    ensures r == old(Ending(reg, B.Lookup(lineMap.v, line), accepted))
    ensures r == Done ==> reg.Valid() && reg.live == old(Remaining(reg, B.Lookup(lineMap.v, line)))
    ensures r == NoVariable || r == Freed ==> unchanged(reg)
    ensures r != Done ==> reg.live == old(reg.live) && lineMap.v == old(lineMap.v) && window == was
    ensures r == Done && (present || reg.live != old(reg.live)) ==> (Dangles(reg, lineMap) <==> !present)
  {
    hide *;
    ghost var live0 := reg.live;
    var found := lineMap.Find(line);
    EndingIs(reg, found, accepted);
    if found == None {
      return NoVariable, was;
    }
    var v := found.value;
    reg.Registered(v);
    if !(v.name in reg.vars && reg.vars[v.name] == v) {
      return Freed, was;
    }
    B.LookupIsEntry(lineMap.v, line);
    var root := Climb(reg, v);
    var status := reg.Release(root, accepted);
    if status != 0 {
      return Refused, was;
    }
    KeysInOrder(reg, order);
    var names := order(reg.user.Keys);
    ghost var ts := ForestOf(reg, names);
    ForestMeans(reg, names, ts);
    assert reg.live <= live0;
    var lines;
    lines, window := PrintAll(reg, names, present, obuf, lineMap, gdb, was, ts);
    DanglesIs(reg, lineMap);
    return Done, window;
  }

  lemma EndingIs(reg: Vars, found: Option<Variable>, accepted: bool)
    ensures found == None ==> Ending(reg, found, accepted) == NoVariable
    ensures found.Some? && found.value !in reg.live ==> Ending(reg, found, accepted) == Freed
    ensures found.Some? && found.value in reg.live && Root(found.value) in reg.live ==>
              && Ending(reg, found, accepted) == (if Root(found.value).refcnt == 1 && !accepted then Refused else Done)
              && Remaining(reg, found) ==
                 if Root(found.value).refcnt == 1 then reg.live - reg.Subtree(Root(found.value)) else reg.live
  {
  }

  lemma KeysInOrder(reg: Vars, order: set<string> -> seq<string>)
    requires Enumerates(order)
    ensures var names := order(reg.user.Keys);
            (forall n <- names :: n in reg.user) && forall i, j | 0 <= i < j < |names| :: names[i] != names[j]
  {
  }

  lemma DanglesIs(reg: Vars, lineMap: B.LineMap<Variable>)
    ensures Dangles(reg, lineMap) <==> exists e <- lineMap.v :: e.data !in reg.live
  {
  }
}
