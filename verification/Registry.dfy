/**
 * The registry of gdb variable objects: one map of all names, one map of roots per origin, and trees of children with
 * parent pointers. Objects are deleted explicitly, so the invariant also says that nothing points to a deleted one.
 */
module Registry {
  import opened Options

  datatype Origin = Unknown | Callstack | Register | User

  class Variable {
    const name: string
    const origin: Origin
    const parent: Variable?
    /** The objects from the root down to this one. */
    ghost const path: seq<Variable>
    var exp: string
    var value: string
    var nchilds: nat
    var refcnt: nat
    var childs: seq<Variable>
    var modified: bool
    var childsVisible: bool

    constructor (name: string, origin: Origin, parent: Variable?, nchilds: nat)
      ensures this.name == name && this.origin == origin && this.parent == parent && this.nchilds == nchilds
      ensures path == (if parent == null then [] else parent.path) + [this]
      ensures refcnt == 1 && childs == [] && modified && !childsVisible
    {
      this.name, this.origin, this.parent, this.nchilds := name, origin, parent, nchilds;
      exp, value := "", "";
      refcnt, childs, modified, childsVisible := 1, [], true, false;
      path := (if parent == null then [] else parent.path) + [this];
    }
  }

  /** `path` leads from a root to `u` through members of `all` that share `u`'s origin. */
  ghost predicate PathOk(u: Variable, all: set<Variable>) {
    && u.path != [] && u.path[|u.path| - 1] == u
    && u.parent == (if |u.path| == 1 then null else u.path[|u.path| - 2])
    && forall i | 0 <= i < |u.path| ::
         u.path[i] in all && u.path[i].path == u.path[..i + 1] && u.path[i].origin == u.origin
  }

  ghost predicate PathsOk(all: set<Variable>) {
    forall u <- all :: PathOk(u, all)
  }

  /** Two objects on one path at the same depth are the same. */
  lemma SameDepth(all: set<Variable>, u: Variable, a: Variable, b: Variable)
    requires PathOk(u, all) && a in u.path && b in u.path && |a.path| == |b.path|
    ensures a == b
  {
    var i :| 0 <= i < |u.path| && u.path[i] == a;
    var j :| 0 <= j < |u.path| && u.path[j] == b;
    assert a.path == u.path[..i + 1] && b.path == u.path[..j + 1];
  }

  /** What lies on the path of an object on the path of `u` lies on the path of `u`. */
  lemma PathPrefix(all: set<Variable>, u: Variable, w: Variable)
    requires PathOk(u, all) && w in u.path
    ensures w in all && w.path <= u.path && forall x <- w.path :: x in u.path
    ensures w != u ==> |w.path| < |u.path|
  {
    var i :| 0 <= i < |u.path| && u.path[i] == w;
    assert w.path == u.path[..i + 1];
  }

  /** The step from `v` towards `u` goes through a child of `v`. */
  lemma StepTowards(all: set<Variable>, v: Variable, u: Variable) returns (c: Variable)
    requires PathsOk(all) && u in all && v in u.path && u != v
    ensures c in u.path && c in all && c.parent == v && c.path == v.path + [c]
  {
    hide PathsOk, PathOk;
    AllPathsOk(all, u);
    var i := PathIndex(all, u, v);
    c := u.path[i + 1];
    PathAt(all, u, i);
    PathAt(all, u, i + 1);
    AllPathsOk(all, c);
    var p := u.path;
    assert p[..i + 2] == p[..i + 1] + [c];
    ParentOnPath(all, c);
  }

  lemma PathIndex(all: set<Variable>, u: Variable, v: Variable) returns (i: nat)
    requires PathOk(u, all) && v in u.path
    ensures i < |u.path| && u.path[i] == v && (u != v ==> i + 1 < |u.path|)
  {
    i :| 0 <= i < |u.path| && u.path[i] == v;
  }

  lemma PathAt(all: set<Variable>, u: Variable, i: nat)
    requires PathOk(u, all) && i < |u.path|
    ensures u.path[i] in all && u.path[i].path == u.path[..i + 1] && u.path[i] in u.path
  {
  }

  lemma ParentOnPath(all: set<Variable>, c: Variable)
    requires PathOk(c, all)
    ensures |c.path| > 0 && c.parent == if |c.path| == 1 then null else c.path[|c.path| - 2]
  {
  }

  lemma AllPathsOk(all: set<Variable>, u: Variable)
    requires PathsOk(all) && u in all
    ensures PathOk(u, all)
  {
  }

  lemma ChildPath(all: set<Variable>, c: Variable)
    requires PathsOk(all) && c in all && c.parent != null
    ensures c.parent in all && c.path == c.parent.path + [c] && c.origin == c.parent.origin
    ensures c !in c.parent.path && |c.path| == |c.parent.path| + 1 && c.parent in c.path
  {
    assert PathOk(c, all);
    assert c.path[|c.path| - 2].path == c.path[..|c.path| - 1];
    if c in c.parent.path {
      PathPrefix(all, c.parent, c);
      assert false;
    }
  }

  /** Members of `live` that lie below one of `kids`. */
  ghost function Under(live: set<Variable>, kids: seq<Variable>): set<Variable> {
    set u | u in live && exists c <- kids :: c in u.path
  }

  lemma UnderOne(live: set<Variable>, kids: seq<Variable>, k: nat)
    requires k < |kids|
    ensures Under(live, kids[..k + 1]) == Under(live, kids[..k]) + (set u | u in live && kids[k] in u.path)
  {
    assert kids[..k + 1] == kids[..k] + [kids[k]];
  }

  /** Different children of one object have nothing below them in common. */
  lemma SiblingsApart(all: set<Variable>, kids: seq<Variable>, v: Variable, k: nat, u: Variable)
    requires PathsOk(all) && u in all && k < |kids| && kids[k] in u.path
    requires forall c <- kids :: c in all && c.parent == v
    requires forall i, j | 0 <= i < j < |kids| :: kids[i] != kids[j]
    ensures forall c <- kids[..k] :: c !in u.path
  {
    forall c <- kids[..k]
      ensures c !in u.path
    {
      if c in u.path {
        ChildPath(all, c);
        ChildPath(all, kids[k]);
        assert PathOk(u, all);
        SameDepth(all, u, c, kids[k]);
        assert false;
      }
    }
  }

  /** Everything strictly below an object is below one of its children. */
  lemma UnderAll(all: set<Variable>, live: set<Variable>, v: Variable, kids: seq<Variable>)
    requires PathsOk(all) && live <= all
    requires forall c <- kids :: c in all && c.parent == v
    requires forall u <- live, w <- u.path :: v in u.path && |w.path| > |v.path| ==> w in live
    requires forall c <- live :: c.parent == v ==> c in kids
    ensures Under(live, kids) == (set u | u in live && v in u.path) - {v}
  {
    forall u <- live
      ensures u in Under(live, kids) <==> v in u.path && u != v
    {
      assert PathOk(u, all);
      if v in u.path && u != v {
        var c := StepTowards(all, v, u);
        assert c in live && c in kids;
      }
      if c :| c in kids && c in u.path {
        ChildPath(all, c);
        PathPrefix(all, u, c);
        assert v in c.path;
      }
    }
  }

  /** The list of children of `u`: members of `live` that point back, without repetition, all of them. */
  ghost predicate ChildsOk(u: Variable, live: set<Variable>)
    reads u`childs
  {
    (forall c <- u.childs :: c in live && c.parent == u) &&
    (forall i, j | 0 <= i < j < |u.childs| :: u.childs[i] != u.childs[j]) &&
    (forall c <- live :: c.parent == u ==> c in u.childs)
  }

  /** Everything in `live` below `v` has its ancestors up to `v` in `live`. */
  ghost predicate ClosedUp(v: Variable, live: set<Variable>) {
    forall u <- live, w <- u.path :: v in u.path && |w.path| > |v.path| ==> w in live
  }

  /** What the destructor needs of the part of the forest below `v` when parts of `all` are already gone. */
  ghost predicate Below(v: Variable, live: set<Variable>, all: set<Variable>)
    reads live`childs
  {
    live <= all && PathsOk(all) && v in all && ClosedUp(v, live) && forall u <- live :: v in u.path ==> ChildsOk(u, live)
  }

  /** What lies below a child lies strictly below its parent. */
  lemma BelowChild(all: set<Variable>, v: Variable, c: Variable, u: Variable)
    requires PathsOk(all) && c in all && c.parent == v && u in all && c in u.path
    ensures v in u.path && u != v
  {
    ChildPath(all, c);
    assert PathOk(u, all);
    PathPrefix(all, u, c);
  }

  /** Being below one of the first children passes down along a path. */
  lemma NotUnder(all: set<Variable>, was: set<Variable>, kids: seq<Variable>, u: Variable, w: Variable)
    requires PathsOk(all) && was <= all && u in was && w in was && w in u.path
    requires u !in Under(was, kids)
    ensures w !in Under(was, kids)
  {
    assert PathOk(u, all);
    PathPrefix(all, u, w);
  }

  /** The next child can be deleted when some of its siblings have been deleted with everything below them. */
  lemma NextChild(v: Variable, kids: seq<Variable>, k: nat, was: set<Variable>, now: set<Variable>, all: set<Variable>)
    requires was <= all && PathsOk(all) && v in all && ClosedUp(v, was) && k < |kids|
    requires now == was - Under(was, kids[..k])
    requires forall c <- kids :: c in was && c.parent == v
    requires forall i, j | 0 <= i < j < |kids| :: kids[i] != kids[j]
    requires forall u <- now :: v in u.path && u != v ==> ChildsOk(u, was)
    ensures kids[k] in now && Below(kids[k], now, all)
    ensures forall u <- now :: kids[k] in u.path ==> v in u.path && u != v
  {
    hide PathsOk, Under, ChildsOk;
    var c := kids[k];
    NotYetUnder(all, v, kids, k, was);
    ChildPath(all, c);
    forall u <- now | c in u.path
      ensures v in u.path && u != v && ChildsOk(u, now)
    {
      BelowChild(all, v, c, u);
      SmallerChildsOk(u, c, kids, k, was, now, all);
    }
    forall u <- now, w <- u.path | c in u.path && |w.path| > |c.path|
      ensures w in now
    {
      BelowChild(all, v, c, u);
      NotUnder(all, was, kids[..k], u, w);
    }
  }

  lemma NotYetUnder(all: set<Variable>, v: Variable, kids: seq<Variable>, k: nat, was: set<Variable>)
    requires was <= all && PathsOk(all) && k < |kids|
    requires forall c <- kids :: c in was && c.parent == v
    requires forall i, j | 0 <= i < j < |kids| :: kids[i] != kids[j]
    ensures kids[k] !in Under(was, kids[..k])
  {
    assert PathOk(kids[k], all);
    SiblingsApart(all, kids, v, k, kids[k]);
  }

  lemma SmallerChildsOk(u: Variable, c: Variable, kids: seq<Variable>, k: nat, was: set<Variable>, now: set<Variable>,
                        all: set<Variable>)
    requires was <= all && PathsOk(all) && k < |kids| && c == kids[k] && c.parent != null
    requires now == was - Under(was, kids[..k])
    requires forall d <- kids :: d in all && d.parent == c.parent
    requires forall i, j | 0 <= i < j < |kids| :: kids[i] != kids[j]
    requires u in was && c in u.path && ChildsOk(u, was)
    ensures ChildsOk(u, now)
  {
    forall g <- u.childs
      ensures g in now
    {
      ChildPath(all, g);
      SiblingsApart(all, kids, c.parent, k, g);
    }
  }

  lemma KidsOf(v: Variable, live: set<Variable>, all: set<Variable>)
    requires live <= all && PathsOk(all) && ClosedUp(v, live) && ChildsOk(v, live)
    ensures Under(live, v.childs) == (set u | u in live && v in u.path) - {v}
    ensures forall c <- v.childs :: c in live && c.parent == v && v !in c.path[|c.path| - 1..]
    ensures forall i, j | 0 <= i < j < |v.childs| :: v.childs[i] != v.childs[j]
  {
    UnderAll(all, live, v, v.childs);
  }

  lemma UnderNone(live: set<Variable>, kids: seq<Variable>)
    ensures Under(live, kids[..0]) == {}
  {
  }

  lemma WithoutRoot(v: Variable, was: set<Variable>, all: set<Variable>)
    requires v in was && Below(v, was, all)
    ensures v in v.path && v in was
    ensures var now := was - {v};
            ChildsOk(v, now) && ClosedUp(v, now) && forall u <- now :: v in u.path && u != v ==> ChildsOk(u, now)
  {
  }

  /** The forest without a whole tree, or without what was below one object, is well linked again. */
  lemma Survivors(v: Variable, was: set<Variable>, now: set<Variable>)
    requires PathsOk(was) && v in was
    requires now == was - (set u | u in was && v in u.path) ||
             (now == was - ((set u | u in was && v in u.path) - {v}) && v.childs == [])
    requires v !in now ==> v.parent == null
    requires forall u <- now :: u != v ==> ChildsOk(u, was)
    ensures PathsOk(now) && forall u <- now :: ChildsOk(u, now)
  {
    forall u <- now
      ensures PathOk(u, now) && ChildsOk(u, now)
    {
      assert PathOk(u, was);
      forall w <- u.path
        ensures w in now
      {
        PathPrefix(was, u, w);
      }
      if u != v {
        forall g <- u.childs
          ensures g in now
        {
          ChildPath(was, g);
        }
      } else {
        forall c <- now
          ensures c.parent != v
        {
          if c.parent == v {
            ChildPath(was, c);
            assert false;
          }
        }
      }
    }
  }

  /** A new object joins the forest as a root or as the last child of `v`. */
  lemma Joined(c: Variable, was: set<Variable>)
    requires PathsOk(was) && c !in was && c.origin != Unknown
    requires c.path == (if c.parent == null then [] else c.parent.path) + [c]
    requires c.parent != null ==> c.parent in was && c.parent.origin == c.origin
    ensures PathsOk(was + {c})
  {
    var now := was + {c};
    forall u <- now
      ensures PathOk(u, now)
    {
      if u == c {
        if c.parent != null {
          var p := c.parent.path;
          assert PathOk(c.parent, was);
          forall i | 0 <= i < |c.path|
            ensures c.path[i] in now && c.path[i].path == c.path[..i + 1] && c.path[i].origin == c.origin
          {
            assert i < |p| ==> c.path[..i + 1] == p[..i + 1];
          }
        }
      } else {
        assert PathOk(u, was);
      }
    }
  }

  /** The names gdb uses for variable objects; the prefix keeps the origins apart. */
  function Key(origin: Origin, context: string, expr: string): string
    requires origin != Unknown
  {
    match origin
    case Callstack => "s:" + context + ":" + expr
    case Register => "r:" + expr
    case User => "u:" + expr
  }

  /** Keys of different origins never meet; those of the call stack are told apart by context and expression together. */
  lemma KeysApart(o: Origin, c: string, e: string, p: Origin, d: string, f: string)
    requires o != Unknown && p != Unknown
    ensures Key(o, c, e) == Key(p, d, f) <==> o == p && if o == Callstack then c + ":" + e == d + ":" + f else e == f
    ensures o == p == Callstack && ':' !in c && ':' !in d && Key(o, c, e) == Key(p, d, f) ==> c == d && e == f
  {
    var k, l := Key(o, c, e), Key(p, d, f);
    assert k[0] == (match o case Callstack => 's' case Register => 'r' case User => 'u');
    assert l[0] == (match p case Callstack => 's' case Register => 'r' case User => 'u');
    if o == p {
      if o == Callstack {
        assert k[2..] == c + ":" + e && l[2..] == d + ":" + f;
        assert k == "s:" + (c + ":" + e) && l == "s:" + (d + ":" + f);
        if ':' !in c && ':' !in d && k == l {
          ContextEnds(c, e, d, f);
        }
      } else {
        assert k[2..] == e && l[2..] == f;
      }
    }
  }

  lemma ContextEnds(c: string, e: string, d: string, f: string)
    requires ':' !in c && ':' !in d && c + ":" + e == d + ":" + f
    ensures c == d && e == f
  {
    var s := c + ":" + e;
    assert s[|c|] == ':' && s[|d|] == ':' && s[..|c|] == c && s[..|d|] == d;
    NoColonBefore(s, |c|);
    NoColonBefore(s, |d|);
    assert s[|c| + 1..] == e && s[|d| + 1..] == f;
  }

  lemma NoColonBefore(s: string, j: nat)
    requires j <= |s| && ':' !in s[..j]
    ensures forall i | 0 <= i < |s| && s[i] == ':' :: j <= i
  {
    assert forall i | 0 <= i < j :: s[..j][i] == s[i];
  }

  /** One child in gdb's answer to `var-list-children`. */
  datatype ChildInfo = ChildInfo(name: string, nchilds: nat, exp: string)

  function Names(infos: seq<ChildInfo>): (r: seq<string>)
    ensures |r| == |infos| && forall i | 0 <= i < |r| :: r[i] == infos[i].name
  {
    seq(|infos|, i requires 0 <= i < |infos| => infos[i].name)
  }

  /** The children are the ones gdb listed, in its order. */
  ghost predicate Match(kids: seq<Variable>, infos: seq<ChildInfo>)
    reads kids`nchilds, kids`exp
  {
    |kids| == |infos| &&
    forall i | 0 <= i < |kids| ::
      kids[i].name == infos[i].name && kids[i].nchilds == infos[i].nchilds && kids[i].exp == infos[i].exp
  }

  /** The names of some objects. */
  ghost function NamesOf(kids: seq<Variable>): (r: seq<string>)
    ensures |r| == |kids| && forall i | 0 <= i < |r| :: r[i] == kids[i].name
  {
    seq(|kids|, i requires 0 <= i < |kids| => kids[i].name)
  }

  ghost function Elements(s: seq<Variable>): set<Variable> {
    set c | c in s
  }

  lemma ElementsOf(s: seq<Variable>)
    ensures s == [] ==> Elements(s) == {}
    ensures s != [] ==> Elements(s) == Elements(s[..|s| - 1]) + {s[|s| - 1]}
    ensures forall c :: c in Elements(s) <==> c in s
  {
  }

  /** What the rest of the program asks of the registry. */
  datatype Op =
    | Acquiring(expr: string, origin: Origin, context: string, created: Option<nat>, described: Option<string>)
    | Releasing(name: string)
    | Expanding(name: string, answer: Option<seq<ChildInfo>>)
    | Refreshing(reply: Option<seq<Change>>)

  /** An element of gdb's list of changes, with its answer to the question for the new children after a type change. */
  datatype Change = Change(name: string, typeChanged: bool, nchilds: nat, answer: Option<seq<ChildInfo>>)

  /** Names gdb may give to new children: not in use, no name twice. */
  predicate Fresh(names: seq<string>, used: set<string>) {
    (forall n <- names :: n !in used) && (forall i, j | 0 <= i < j < |names| :: names[i] != names[j])
  }

  /** gdb lists the object as changed. */
  ghost predicate Listed(changes: seq<Change>, name: string) {
    exists c <- changes :: c.name == name
  }

  /** The last type change listed for an object. */
  function Retype(changes: seq<Change>, name: string): Option<Change> {
    if changes == [] then None
    else
      var last := changes[|changes| - 1];
      if last.name == name && last.typeChanged then Some(last) else Retype(changes[..|changes| - 1], name)
  }

  /** The names that gdb gives to new children in a list of changes. */
  function Given(changes: seq<Change>): set<string> {
    if changes == [] then {}
    else
      var last := changes[|changes| - 1];
      Given(changes[..|changes| - 1]) + if last.answer.Some? then (set n | n in Names(last.answer.value)) else {}
  }

  /** Those given before the last type change of an object. */
  function GivenBefore(changes: seq<Change>, name: string): set<string> {
    if changes == [] then {}
    else
      var last := changes[|changes| - 1];
      var front := changes[..|changes| - 1];
      if last.name == name && last.typeChanged then Given(front) else GivenBefore(front, name)
  }

  lemma {:induction false} RetypeListed(changes: seq<Change>, c: Change)
    requires c in changes && c.typeChanged
    ensures Retype(changes, c.name).Some?
    decreases |changes|
  {
    var n := |changes| - 1;
    assert changes == changes[..n] + [changes[n]];
    if changes[n].name != c.name || !changes[n].typeChanged {
      RetypeListed(changes[..n], c);
    }
  }

  lemma OneMoreChange(changes: seq<Change>, c: Change, name: string)
    ensures Listed(changes + [c], name) <==> Listed(changes, name) || c.name == name
    ensures var more := changes + [c];
            && Retype(more, name) == (if c.name == name && c.typeChanged then Some(c) else Retype(changes, name))
            && Given(more) == Given(changes) + (if c.answer.Some? then (set n | n in Names(c.answer.value)) else {})
            && GivenBefore(more, name) == if c.name == name && c.typeChanged then Given(changes) else GivenBefore(changes, name)
  {
    var more := changes + [c];
    assert more[..|more| - 1] == changes && more[|more| - 1] == c;
    assert c in more && forall d <- changes :: d in more;
  }

  /** An object survives one more change unless that is a type change of an object above it. */
  lemma Survival(changes: seq<Change>, c: Change, u: Variable, vars: map<string, Variable>, live: set<Variable>)
    requires u in live ==>
               && (forall w <- u.path :: w in live && w.name in vars && vars[w.name] == w && (w != u ==> w.name != u.name))
               && u in u.path
    requires forall n <- vars :: vars[n].name == n
    requires u in live <==> forall w <- u.path :: w == u || Retype(changes, w.name) == None
    ensures (forall w <- u.path :: w == u || Retype(changes + [c], w.name) == None) <==>
            u in live && !(c.name in vars && c.typeChanged && vars[c.name] in u.path && u.name != c.name)
  {
    hide Retype;
    forall w <- u.path
      ensures Retype(changes + [c], w.name) == if c.name == w.name && c.typeChanged then Some(c) else Retype(changes, w.name)
    {
      OneMoreChange(changes, c, w.name);
    }
  }

  /** What is known of an object before the changes. */
  datatype Before = Before(modified: bool, nchilds: nat, childs: seq<Variable>, visible: bool, refcnt: nat)

  ghost function Facts(live: set<Variable>): map<Variable, Before>
    reads live
  {
    map u | u in live :: Before(u.modified, u.nchilds, u.childs, u.childsVisible, u.refcnt)
  }

  /** The names in use by all of `live` but what is strictly below `v`. */
  ghost function NamesBeside(live: set<Variable>, v: Variable): set<string> {
    set u | u in live && !(v in u.path && u != v) :: u.name
  }

  /**
   * An object that is still there after some changes: marked if it is listed and on show, with the number and names of
   * the children of its last type change, or the children it had. `live` are the objects before the changes.
   */
  ghost predicate Follows(u: Variable, now: Before, changes: seq<Change>, live: set<Variable>, was: map<Variable, Before>)
    requires u in was
  {
    && now.modified == (was[u].modified ||
                        (Listed(changes, u.name) && (u.parent == null || (u.parent in was && was[u.parent].visible))))
    && match Retype(changes, u.name)
       case None => now.nchilds == was[u].nchilds && now.childs == was[u].childs
       case Some(c) =>
         && now.nchilds == c.nchilds && (forall k <- now.childs :: k !in live)
         && (c.answer == None ==> now.childs == [])
         && (c.answer.Some? && Fresh(Names(c.answer.value), NamesBeside(live, u) + GivenBefore(changes, u.name)) ==>
               NamesOf(now.childs) == Names(c.answer.value))
  }

  lemma FreshAmongFewer(names: seq<string>, used: set<string>, fewer: set<string>)
    requires Fresh(names, used) && fewer <= used
    ensures Fresh(names, fewer)
  {
  }

  /** One more change. */
  lemma FollowsNext(u: Variable, b: Before, now: Before, changes: seq<Change>, c: Change, live: set<Variable>,
                    was: map<Variable, Before>, used: set<string>)
    requires u in was && Follows(u, b, changes, live, was)
    requires c.name == u.name ==> used <= NamesBeside(live, u) + Given(changes)
    requires c.name != u.name ==> now.modified == b.modified
    requires c.name == u.name ==>
               now.modified == (b.modified || u.parent == null || (u.parent in was && was[u.parent].visible))
    requires c.name != u.name || !c.typeChanged ==> now.nchilds == b.nchilds && now.childs == b.childs
    requires c.name == u.name && c.typeChanged ==>
               && now.nchilds == c.nchilds && (forall k <- now.childs :: k !in live)
               && var got := Usable(c.answer, used); NamesOf(now.childs) == if got.Some? then Names(got.value) else []
    ensures Follows(u, now, changes + [c], live, was)
  {
    hide Retype, Given, GivenBefore, Listed, Fresh, NamesBeside;
    OneMoreChange(changes, c, u.name);
    if c.name == u.name && c.answer.Some? && Fresh(Names(c.answer.value), NamesBeside(live, u) + Given(changes)) {
      FreshAmongFewer(Names(c.answer.value), NamesBeside(live, u) + Given(changes), used);
    }
  }

  /** gdb's list of children, which names new objects with names that are not in use. */
  function Usable(answer: Option<seq<ChildInfo>>, used: set<string>): Option<seq<ChildInfo>> {
    if answer.Some? && Fresh(Names(answer.value), used) then answer else None
  }

  /** What an operation does to the count of the variable with a name. */
  function Delta(op: Op, name: string): int {
    match op
    case Acquiring(expr, origin, context, _, _) => if origin != Unknown && Key(origin, context, expr) == name then 1 else 0
    case Releasing(n) => if n == name then -1 else 0
    case _ => 0
  }

  function Net(ops: seq<Op>, name: string): int {
    if ops == [] then 0 else Delta(ops[0], name) + Net(ops[1..], name)
  }

  /** The holders of a variable with `count` references never give the last one back. */
  predicate Held(ops: seq<Op>, name: string, count: int) {
    ops == [] || (count + Delta(ops[0], name) >= 1 && Held(ops[1..], name, count + Delta(ops[0], name)))
  }

  lemma HeldStep(ops: seq<Op>, i: nat, name: string, count: int)
    requires i < |ops|
    ensures Held(ops[i..], name, count) <==>
            count + Delta(ops[i], name) >= 1 && Held(ops[i + 1..], name, count + Delta(ops[i], name))
    ensures Net(ops[i..], name) == Delta(ops[i], name) + Net(ops[i + 1..], name)
  {
    hide Delta;
    assert ops[i..][0] == ops[i] && ops[i..][1..] == ops[i + 1..];
  }

  class Vars {
    var vars: map<string, Variable>          // gdb_var_lst
    var callstack: map<string, Variable>     // gdb_callstack_var
    var register: map<string, Variable>      // gdb_register_var
    var user: map<string, Variable>          // gdb_user_var
    /** The registered objects that have not been deleted. */
    ghost var live: set<Variable>

    /** Names and live objects correspond one to one. */
    ghost predicate Named()
      reads this
    {
      (forall n <- vars :: vars[n] in live && vars[n].name == n) &&
      (forall u <- live :: u.name in vars && vars[u.name] == u)
    }

    /** The map of an origin holds the roots of that origin and nothing else. */
    ghost predicate Lists(m: map<string, Variable>, o: Origin)
      reads this
    {
      (forall n <- m :: n in vars && m[n] == vars[n] && vars[n].parent == null && vars[n].origin == o) &&
      (forall n <- vars :: vars[n].parent == null && vars[n].origin == o ==> n in m)
    }

    ghost predicate Origins()
      reads this
    {
      Lists(callstack, Callstack) && Lists(register, Register) && Lists(user, User) &&
      forall u <- live :: u.origin != Unknown
    }

    ghost predicate Valid()
      reads this, live`refcnt, live`childs
    {
      Named() && Origins() && PathsOk(live) && (forall u <- live :: ChildsOk(u, live)) && (forall u <- live :: u.refcnt >= 1)
    }

    /** `v` and everything below it. */
    ghost function Subtree(v: Variable): set<Variable>
      reads this
    {
      set u | u in live && v in u.path
    }

    constructor ()
      ensures Valid() && live == {} && vars == map[]
    {
      vars, callstack, register, user, live := map[], map[], map[], map[], {};
    }

    /** `MAP_ERASE` of the name of an object that is about to be freed. */
    method Forget(v: Variable)
      requires Named() && Origins() && v in live
      modifies this
      ensures Named() && Origins() && live == old(live) - {v}
    {
      vars := vars - {v.name};
      live := live - {v};
      match v.origin {
        case Callstack => callstack := callstack - {v.name};
        case Register => register := register - {v.name};
        case User => user := user - {v.name};
        case Unknown =>
      }
    }

    /** The destructor: it takes the object out of the maps and then deletes its children. */
    method Delete(v: Variable, ghost all: set<Variable>)
      requires Named() && Origins() && v in live && Below(v, live, all)
      modifies this, Subtree(v)`childs
      ensures Named() && Origins() && live == old(live) - old(Subtree(v))
      decreases live, 0
    {
      hide Named, Origins, ChildsOk, ClosedUp, PathsOk, PathOk;
      ghost var was := live;
      Forget(v);
      WithoutRoot(v, was, all);
      EraseChilds(v, all);
    }

    /** `erase_childs`, with `v` itself still registered or just taken out. */
    method EraseChilds(v: Variable, ghost all: set<Variable>)
      requires Named() && Origins() && ChildsOk(v, live)
      requires live <= all && PathsOk(all) && v in all && ClosedUp(v, live)
      requires forall u <- live :: v in u.path && u != v ==> ChildsOk(u, live)
      modifies this, v`childs, Subtree(v)`childs
      ensures Named() && Origins() && live == old(live) - (old(Subtree(v)) - {v})
      ensures v.childs == []
      decreases live, 1
    {
      hide Named, Origins, ClosedUp, PathsOk, Under, ChildsOk;
      ghost var kids, was, k := v.childs, live, 0;
      KidsOf(v, was, all);
      UnderNone(was, kids);
      while v.childs != []
        invariant k <= |kids| && v.childs == kids[k..] && live <= was
        invariant Named() && Origins()
        invariant live == was - Under(was, kids[..k])
        invariant forall u <- live :: v in u.path && u != v ==> ChildsOk(u, was)
        decreases |v.childs|
      {
        var c := v.childs[0];
        assert c == kids[k];
        NextChild(v, kids, k, was, live, all);
        Delete(c, all);
        UnderOne(was, kids, k);
        v.childs := v.childs[1..];
        k := k + 1;
      }
      assert kids[..k] == kids;
    }

    lemma ValidMeans()
      requires Valid()
      ensures forall v <- live :: Below(v, live, live) && ClosedUp(v, live) && ChildsOk(v, live)
    {
      forall u <- live
        ensures PathOk(u, live) && forall w <- u.path :: w in live
      {
      }
    }

    /** Deleting a root takes its tree out of the registry and leaves the rest as it was. */
    method DeleteRoot(v: Variable)
      requires Valid() && v in live && v.parent == null
      modifies this, Subtree(v)`childs
      ensures Valid() && live == old(live) - old(Subtree(v))
    {
      hide Named, Origins, ChildsOk, ClosedUp, PathsOk, Below;
      ValidMeans();
      ghost var was := live;
      Delete(v, live);
      Survivors(v, was, live);
    }

    /** Emptying the list of children of a registered object. */
    method DropChilds(v: Variable)
      requires Valid() && v in live
      modifies this, v`childs, Subtree(v)`childs
      ensures Valid() && live == old(live) - (old(Subtree(v)) - {v})
      ensures v.childs == []
    {
      hide Named, Origins, ChildsOk, ClosedUp, PathsOk, Below;
      ValidMeans();
      ghost var was := live;
      EraseChilds(v, live);
      Survivors(v, was, live);
    }

    /** Enters an object into the map of names and, if it is a root, into the map of its origin. */
    method Enlist(v: Variable)
      requires Named() && Origins() && v !in live && v.name !in vars && v.origin != Unknown
      modifies this
      ensures Named() && Origins() && live == old(live) + {v} && vars == old(vars)[v.name := v]
    {
      vars := vars[v.name := v];
      live := live + {v};
      if v.parent == null {
        match v.origin {
          case Callstack => callstack := callstack[v.name := v];
          case Register => register := register[v.name := v];
          case User => user := user[v.name := v];
          case Unknown =>
        }
      }
    }

    method AddRoot(key: string, origin: Origin, nchilds: nat) returns (v: Variable)
      requires Valid() && key !in vars && origin != Unknown
      modifies this
      ensures Valid() && fresh(v) && live == old(live) + {v} && vars == old(vars)[key := v]
      ensures v.name == key && v.origin == origin && v.parent == null && v.refcnt == 1 && v.nchilds == nchilds
      ensures v.modified && !v.childsVisible && v.childs == []
    {
      hide ChildsOk, PathsOk, PathOk, Named, Origins;
      v := new Variable(key, origin, null, nchilds);
      Joined(v, live);
      NoChildsYet(v);
      Enlist(v);
    }

    lemma NoChildsYet(v: Variable)
      requires PathsOk(live) && (forall u <- live :: ChildsOk(u, live)) && v !in live && v.childs == [] && v.parent == null
      ensures forall u <- live :: ChildsOk(u, live + {v})
      ensures ChildsOk(v, live + {v})
    {
      forall c <- live
        ensures c.parent != v
      {
        assert PathOk(c, live);
      }
    }

    /** Appends a new child, as the loop of `init_childs` does with every element of gdb's answer. */
    method AddChild(v: Variable, name: string, nchilds: nat, exp: string) returns (c: Variable)
      requires Valid() && v in live && name !in vars
      modifies this, v`childs
      ensures Valid() && fresh(c) && live == old(live) + {c} && vars == old(vars)[name := c]
      ensures v.childs == old(v.childs) + [c]
      ensures c.name == name && c.origin == v.origin && c.parent == v && c.refcnt == 1 && c.nchilds == nchilds
      ensures c.exp == exp && c.modified && !c.childsVisible && c.childs == []
    {
      hide ChildsOk, PathsOk, PathOk, Named, Origins;
      OriginKnown(v);
      c := new Variable(name, v.origin, v, nchilds);
      c.exp := exp;
      Joined(c, live);
      ghost var kids, was := v.childs, live;
      OldChilds(v);
      v.childs := v.childs + [c];
      ChildAppended(v, kids, c, was);
      Enlist(c);
    }

    lemma OriginKnown(v: Variable)
      requires Origins() && v in live
      ensures v.origin != Unknown
    {
    }

    lemma OldChilds(v: Variable)
      requires ChildsOk(v, live)
      ensures (forall c <- v.childs :: c in live && c.parent == v) && (forall c <- live :: c.parent == v ==> c in v.childs)
      ensures forall i, j | 0 <= i < j < |v.childs| :: v.childs[i] != v.childs[j]
    {
    }

    lemma ChildAppended(v: Variable, kids: seq<Variable>, c: Variable, was: set<Variable>)
      requires PathsOk(was) && v in was && c !in was && c.parent == v && c.childs == [] && v.childs == kids + [c]
      requires forall u <- was :: u != v ==> ChildsOk(u, was)
      requires (forall d <- kids :: d in was && d.parent == v) && (forall d <- was :: d.parent == v ==> d in kids)
      requires forall i, j | 0 <= i < j < |kids| :: kids[i] != kids[j]
      ensures forall u <- was + {c} :: ChildsOk(u, was + {c})
    {
      forall u <- was
        ensures u.parent != c
      {
        assert PathOk(u, was);
      }
    }

    /**
     * `acquire`: a known name is shared, an unknown one is created by gdb (`created`, with its number of children) and
     * then described (`described`). Without a description the caller gets nothing, but the object stays registered.
     */
    method Acquire(expr: string, origin: Origin, context: string, created: Option<nat>, described: Option<string>)
      returns (r: Variable?)
      requires Valid()
      modifies this, live
      ensures Valid()
      ensures origin == Unknown || (Key(origin, context, expr) !in old(vars) && created == None) ==>
                r == null && live == old(live) && vars == old(vars)
      ensures origin != Unknown && Key(origin, context, expr) in old(vars) ==>
                r == old(vars)[Key(origin, context, expr)] && r.refcnt == old(vars[Key(origin, context, expr)].refcnt) + 1 &&
                live == old(live) && vars == old(vars)
      ensures origin != Unknown && Key(origin, context, expr) !in old(vars) && created.Some? ==>
                var key := Key(origin, context, expr);
                && key in vars && fresh(vars[key]) && vars == old(vars)[key := vars[key]] && live == old(live) + {vars[key]}
                && vars[key].parent == null && vars[key].origin == origin && vars[key].refcnt == 1
                && vars[key].nchilds == created.value && vars[key].modified && !vars[key].childsVisible
                && (described.Some? ==> vars[key].exp == described.value)
                && r == if described.Some? then vars[key] else null
      ensures forall u <- old(live) :: u != r ==> u.refcnt == old(u.refcnt)
    {
      hide ChildsOk, PathsOk, PathOk, Named, Origins;
      if origin == Unknown {
        return null;
      }
      var key := Key(origin, context, expr);
      if key in vars {
        r := vars[key];
        LookupIsLive(key);
        r.refcnt := r.refcnt + 1;
        return;
      }
      if created == None {
        return null;
      }
      var v := AddRoot(key, origin, created.value);
      if described.Some? {
        v.exp := described.value;
        return v;
      }
      return null;
    }

    lemma ValidPaths()
      requires Valid()
      ensures PathsOk(live)
    {
    }

    lemma Registered(v: Variable)
      requires Valid()
      ensures v in live <==> v.name in vars && vars[v.name] == v
    {
      hide PathsOk, ChildsOk;
    }

    lemma UserRoot(name: string)
      requires Valid() && name in user
      ensures user[name] in live && user[name].parent == null && user[name].name == name
    {
      hide PathsOk, ChildsOk;
    }

    lemma LookupIsLive(name: string)
      requires Named() && name in vars
      ensures vars[name] in live && vars[name].name == name
    {
    }

    lemma NamesOfLive()
      requires Named()
      ensures forall u <- live :: u.name in vars && vars[u.name] == u
      ensures forall n <- vars :: vars[n].name == n
    {
    }

    lemma InFamily(v: Variable)
      requires Valid() && v in live
      ensures v in v.path
      ensures v.parent != null ==> v.parent in live && v !in v.parent.path && v in v.parent.childs
    {
      if v.parent != null {
        ChildPath(live, v);
        assert ChildsOk(v.parent, live);
      }
    }

    /** No root is below another object. */
    lemma RootsAlone(v: Variable)
      requires PathsOk(live)
      ensures forall u <- Subtree(v) :: u.parent == null ==> u == v
    {
      forall u <- Subtree(v) | u.parent == null
        ensures u == v
      {
        assert PathOk(u, live);
      }
    }

    lemma Dangling(v: Variable)
      requires v !in live && v.parent != null && v.parent in live && v in v.parent.childs
      ensures !Valid()
    {
    }

    /**
     * `release`. It keeps the registry intact exactly if other references remain, or the object is a root and gdb
     * accepts the deletion; a refused deletion leaves a registered object without references, and deleting a child
     * leaves its parent with a pointer to it.
     */
    method Release(v: Variable, accepted: bool) returns (r: int)
      requires Valid() && v in live
      modifies this, v`refcnt, v`childs, Subtree(v)`childs
      ensures r == if old(v.refcnt) > 1 || accepted then 0 else -1
      ensures live == if old(v.refcnt) == 1 && accepted then old(live) - old(Subtree(v)) else old(live)
      ensures v in live ==> v.refcnt == old(v.refcnt) - 1
      ensures forall u <- old(live) :: u.parent == null && (u != v || old(v.refcnt) > 1) ==> u in live
      ensures Valid() <==> old(v.refcnt) > 1 || (accepted && v.parent == null)
    {
      hide ChildsOk, PathsOk, PathOk, Named, Origins, ClosedUp, Below;
      ValidMeans();
      InFamily(v);
      v.refcnt := v.refcnt - 1;
      if v.refcnt == 0 {
        if !accepted {
          return -1;
        }
        ghost var was := live;
        RootsAlone(v);
        Delete(v, live);
        if v.parent == null {
          Survivors(v, was, live);
        } else {
          Dangling(v);
        }
      }
      return 0;
    }

    /** The loop of `init_childs` over gdb's answer. */
    method AddChilds(v: Variable, infos: seq<ChildInfo>)
      requires Valid() && v in live && v.childs == [] && Fresh(Names(infos), vars.Keys)
      modifies this, v`childs
      ensures Valid() && Match(v.childs, infos) && live == old(live) + Elements(v.childs)
      ensures forall c <- v.childs :: fresh(c) && c.modified && !c.childsVisible && c.refcnt == 1
    {
      hide *;
      FreshNames(infos, vars.Keys);
      ElementsOf(v.childs);
      NothingToMatch(v.childs, infos[..0]);
      var i := 0;
      while i < |infos|
        invariant i <= |infos| && Valid() && v in live
        invariant Match(v.childs, infos[..i]) && live == old(live) + Elements(v.childs)
        invariant forall c <- v.childs :: fresh(c) && c.modified && !c.childsVisible && c.refcnt == 1
        invariant forall j | i <= j < |infos| :: infos[j].name !in vars
      {
        var c := AddNext(v, infos[..i], infos[i]);
        assert infos[..i] + [infos[i]] == infos[..i + 1];
        i := i + 1;
      }
      assert infos[..i] == infos;
    }

    method AddNext(v: Variable, done: seq<ChildInfo>, info: ChildInfo) returns (c: Variable)
      requires Valid() && v in live && Match(v.childs, done) && info.name !in vars
      modifies this, v`childs
      ensures Valid() && Match(v.childs, done + [info]) && v in live && vars.Keys == old(vars.Keys) + {info.name}
      ensures fresh(c) && live == old(live) + {c} && Elements(v.childs) == old(Elements(v.childs)) + {c}
      ensures forall k <- v.childs :: k in old(v.childs) || k == c
      ensures c.modified && !c.childsVisible && c.refcnt == 1
    {
      hide Valid;
      ghost var kids := v.childs;
      c := AddChild(v, info.name, info.nchilds, info.exp);
      ElementsOf(v.childs);
      assert v.childs[..|kids|] == kids;
    }

    lemma NothingToMatch(kids: seq<Variable>, infos: seq<ChildInfo>)
      requires kids == [] && infos == []
      ensures Match(kids, infos)
    {
    }

    lemma FreshNames(infos: seq<ChildInfo>, used: set<string>)
      requires Fresh(Names(infos), used)
      ensures forall j | 0 <= j < |infos| :: infos[j].name !in used
      ensures forall i, j | 0 <= i < j < |infos| :: infos[i].name != infos[j].name
    {
      var names := Names(infos);
      assert forall j | 0 <= j < |infos| :: names[j] == infos[j].name && names[j] in names;
    }

    /** `init_childs`, with gdb's answer if it is asked. */
    method InitChilds(v: Variable, answer: Option<seq<ChildInfo>>) returns (r: int)
      requires Valid() && v in live
      modifies this, v`childs
      ensures Valid() && fresh(live - old(live))
      ensures var got := Usable(answer, old(vars.Keys));
              && r == (if old(v.childs) == [] && got == None then -1 else 0)
              && (old(v.childs) != [] || got == None ==> live == old(live) && v.childs == old(v.childs))
              && (old(v.childs) == [] && got.Some? ==>
                    && Match(v.childs, got.value) && live == old(live) + Elements(v.childs)
                    && (forall c <- v.childs :: fresh(c) && c.modified && !c.childsVisible && c.refcnt == 1))
    {
      hide Valid, Match, Fresh, Elements;
      if |v.childs| != 0 {
        return 0;
      }
      var got := Usable(answer, vars.Keys);
      if got == None {
        return -1;
      }
      AddChilds(v, got.value);
      ElementsOf(v.childs);
      return 0;
    }

    /** The names in use by all but what is strictly below `v`. */
    ghost function Others(v: Variable): set<string>
      reads this
    {
      NamesBeside(live, v)
    }

    lemma KeysAreNames()
      requires Valid()
      ensures vars.Keys == set u | u in live :: u.name
    {
      hide PathsOk, ChildsOk, Origins;
      forall n <- vars.Keys
        ensures exists u <- live :: u.name == n
      {
        assert vars[n] in live && vars[n].name == n;
      }
    }

    /** One element of the change list in `get_changed`; names that are not registered are skipped. */
    method Refresh(name: string, typeChanged: bool, nchilds: nat, answer: Option<seq<ChildInfo>>)
      requires Valid()
      modifies this, live
      ensures Valid() && fresh(live - old(live))
      // after a type change of an object what was strictly below it is gone
      ensures forall u <- old(live) ::
                u in live <==> !(name in old(vars) && typeChanged && old(vars)[name] in u.path && u.name != name)
      ensures forall u <- old(live) :: u.refcnt == old(u.refcnt) && u.childsVisible == old(u.childsVisible)
      ensures forall u <- old(live) :: u.name != name ==> u.modified == old(u.modified) && u.nchilds == old(u.nchilds)
      ensures forall u <- old(live) :: u in live && u.name != name ==> u.childs == old(u.childs)
      ensures name in old(vars) ==>
                var v := old(vars)[name];
                && v.modified == (old(v.modified) || old(v.parent == null || v.parent.childsVisible))
                && v.nchilds == (if typeChanged then nchilds else old(v.nchilds))
                && if !typeChanged then v.childs == old(v.childs)
                   else
                     var got := Usable(answer, old(Others(v)));
                     (forall c <- v.childs :: fresh(c)) && NamesOf(v.childs) == if got.Some? then Names(got.value) else []
      ensures live - old(live) != {} ==> answer.Some? && forall u <- live - old(live) :: u.name in Names(answer.value)
    {
      hide ChildsOk, PathsOk, PathOk, Named, Origins, Elements, Match, Fresh;
      if name !in vars {
        return;
      }
      LookupIsLive(name);
      NamesOfLive();
      var v := vars[name];
      ParentIsLive(v);
      if v.parent == null || v.parent.childsVisible {
        v.modified := true;
      }
      if typeChanged {
        Replace(v, nchilds, answer);
        NamesGiven(v.childs, NamesOf(v.childs));
      }
    }

    /** A type change: new children for old ones. */
    method Replace(v: Variable, nchilds: nat, answer: Option<seq<ChildInfo>>)
      requires Valid() && v in live
      modifies this, v`nchilds, v`childs, Subtree(v)`childs
      ensures Valid() && fresh(live - old(live)) && v.nchilds == nchilds
      ensures forall u <- old(live) :: u in live <==> !(v in u.path && u != v)
      ensures forall u <- old(live) :: u in live && u != v ==> u.childs == old(u.childs)
      ensures var got := Usable(answer, old(Others(v)));
              && (forall c <- v.childs :: fresh(c)) && NamesOf(v.childs) == (if got.Some? then Names(got.value) else [])
              && live - old(live) == Elements(v.childs)
    {
      hide ChildsOk, PathsOk, PathOk, Named, Origins, Elements, Match, Fresh;
      v.nchilds := nchilds;
      InFamily(v);
      RootsAlone(v);
      DropChilds(v);
      ElementsOf(v.childs);
      KeysAreNames();
      assert vars.Keys == old(Others(v));
      var r := InitChilds(v, answer);
      ElementsOf(v.childs);
      MatchNames(v.childs, Usable(answer, old(Others(v))));
    }

    /** The children with the names of an answer. */
    lemma NamesGiven(kids: seq<Variable>, names: seq<string>)
      requires NamesOf(kids) == names
      ensures forall u <- Elements(kids) :: u.name in names
    {
    }

    /** What the registry and its objects are after some changes. */
    ghost predicate After(changes: seq<Change>, before: set<Variable>, was: map<Variable, Before>)
      reads this, before
    {
      && was.Keys == before
      && (forall u <- live - before :: u.name in Given(changes))
      && forall u <- before ::
           && (u in live <==> forall w <- u.path :: w == u || Retype(changes, w.name) == None)
           && u.refcnt == was[u].refcnt && u.childsVisible == was[u].visible
           && (u in live ==> Follows(u, Now(u), changes, before, was))
    }

    ghost function Now(u: Variable): Before
      reads u
    {
      Before(u.modified, u.nchilds, u.childs, u.childsVisible, u.refcnt)
    }

    /** One round of the loop of `get_changed`. */
    method RefreshNext(c: Change, ghost changes: seq<Change>, ghost before: set<Variable>, ghost was: map<Variable, Before>)
      requires Valid() && After(changes, before, was) && PathsOk(before)
      modifies this, live
      ensures Valid() && fresh(live - old(live)) && After(changes + [c], before, was)
    {
      hide Valid, Named, Origins, After, Follows, Retype, Given, GivenBefore, Listed, NamesBeside, NamesOf, Names, Usable;
      hide Others, PathsOk, Fresh, ChildsOk;
      ghost var vars0, live0 := vars, live;
      AfterMeans(changes, before, was);
      PathsNamed();
      ghost var used := if c.name in vars then Others(vars[c.name]) else {};
      if c.name in vars {
        NamesInUse(changes, before, vars[c.name]);
      }
      Refresh(c.name, c.typeChanged, c.nchilds, c.answer);
      forall u <- before
        ensures u in live <==> forall w <- u.path :: w == u || Retype(changes + [c], w.name) == None
        ensures u in live ==> Follows(u, Now(u), changes + [c], before, was)
      {
        Survival(changes, c, u, vars0, live0);
        if u in live {
          if u.parent != null {
            ChildPath(before, u);
          }
          FollowsNext(u, old(Now(u)), Now(u), changes, c, before, was, used);
        }
      }
      forall u <- live - before
        ensures u.name in Given(changes + [c])
      {
        OneMoreChange(changes, c, u.name);
        assert u in live0 - before || u in live - live0;
      }
      AfterIs(changes + [c], before, was);
    }

    /** What an object has on its path is registered under its name. */
    lemma PathsNamed()
      requires Valid()
      ensures forall u <- live, w <- u.path :: w in live && w.name in vars && vars[w.name] == w && (w != u ==> w.name != u.name)
      ensures forall u <- live :: u in u.path && u.name in vars && vars[u.name] == u
      ensures forall n <- vars :: vars[n] in live && vars[n].name == n
    {
      hide ChildsOk, Origins;
      forall u <- live, w <- u.path
        ensures w in live
      {
        assert PathOk(u, live);
      }
    }

    lemma AfterMeans(changes: seq<Change>, before: set<Variable>, was: map<Variable, Before>)
      requires After(changes, before, was)
      ensures was.Keys == before && (forall u <- live - before :: u.name in Given(changes))
      ensures forall u <- before ::
                && (u in live <==> forall w <- u.path :: w == u || Retype(changes, w.name) == None)
                && u.refcnt == was[u].refcnt && u.childsVisible == was[u].visible
                && (u in live ==> Follows(u, Now(u), changes, before, was))
    {
      hide Follows, Retype;
    }

    lemma AfterIs(changes: seq<Change>, before: set<Variable>, was: map<Variable, Before>)
      requires was.Keys == before && (forall u <- live - before :: u.name in Given(changes))
      requires forall u <- before ::
                && (u in live <==> forall w <- u.path :: w == u || Retype(changes, w.name) == None)
                && u.refcnt == was[u].refcnt && u.childsVisible == was[u].visible
                && (u in live ==> Follows(u, Now(u), changes, before, was))
      ensures After(changes, before, was)
    {
      hide Follows, Retype;
    }

    /** Names in use before some changes or given by them. */
    lemma NamesInUse(changes: seq<Change>, before: set<Variable>, v: Variable)
      requires forall u <- live - before :: u.name in Given(changes)
      ensures Others(v) <= NamesBeside(before, v) + Given(changes)
    {
    }

    lemma NothingChanged()
      requires Valid()
      ensures After([], live, Facts(live)) && PathsOk(live)
      ensures forall u <- live :: Facts(live)[u].refcnt == u.refcnt && Facts(live)[u].visible == u.childsVisible
    {
      hide ChildsOk, Named, Origins, PathsOk;
      forall u <- live
        ensures u.parent != null ==> u.parent in live
      {
        ParentIsLive(u);
      }
    }

    /**
     * `get_changed`: gdb fails, or lists what has changed. Every listed object on show is marked; a type change replaces
     * what is below an object, and nothing else goes away.
     */
    method GetChanged(reply: Option<seq<Change>>) returns (r: int)
      requires Valid()
      modifies this, live
      ensures Valid() && fresh(live - old(live))
      ensures r == if reply == None then -1 else 0
      ensures After(if reply == None then [] else reply.value, old(live), old(Facts(live)))
      ensures forall u <- old(live) :: u.refcnt == old(u.refcnt) && (u.parent == null ==> u in live)
      // in particular: what is listed and on show is marked, and below a changed type everything is new
      ensures reply.Some? ==>
                forall u <- old(live), c <- reply.value :: u in live && c.name == u.name ==>
                  && (u.parent == null || old(u.parent.childsVisible) ==> u.modified)
                  && (c.typeChanged ==> forall k <- u.childs :: fresh(k))
    {
      hide *;
      ghost var before, was := live, Facts(live);
      NothingChanged();
      if reply == None {
        return -1;
      }
      for i := 0 to |reply.value|
        invariant Valid() && fresh(live - old(live)) && After(reply.value[..i], before, was) && PathsOk(before)
      {
        assert reply.value[..i] + [reply.value[i]] == reply.value[..i + 1];
        RefreshNext(reply.value[i], reply.value[..i], before, was);
      }
      assert reply.value[..|reply.value|] == reply.value;
      RootsStay(reply.value, before, was);
      forall u <- before, c <- reply.value | u in live && c.name == u.name
        ensures u.parent == null || old(u.parent.childsVisible) ==> u.modified
        ensures c.typeChanged ==> forall k <- u.childs :: k !in before && k in live
      {
        ListedIsMarked(reply.value, before, was, u, c);
      }
      return 0;
    }

    lemma ListedIsMarked(changes: seq<Change>, before: set<Variable>, was: map<Variable, Before>, u: Variable, c: Change)
      requires Valid() && After(changes, before, was) && PathsOk(before) && u in before && u in live
      requires c in changes && c.name == u.name
      ensures u.parent != null ==> u.parent in before
      ensures u.parent == null || was[u.parent].visible ==> u.modified
      ensures c.typeChanged ==> forall k <- u.childs :: k !in before && k in live
    {
      hide Named, Origins, PathsOk, Given, GivenBefore, NamesBeside, NamesOf, Fresh, Names;
      if u.parent != null {
        ChildPath(before, u);
      }
      assert Follows(u, Now(u), changes, before, was);
      if c.typeChanged {
        RetypeListed(changes, c);
        assert ChildsOk(u, live);
      }
    }

    /** Nothing is above a root. */
    lemma RootsStay(changes: seq<Change>, before: set<Variable>, was: map<Variable, Before>)
      requires After(changes, before, was) && PathsOk(before)
      ensures forall u <- before :: u.refcnt == was[u].refcnt && (u.parent == null ==> u in live)
    {
      hide Retype, Follows;
      forall u <- before | u.parent == null
        ensures u in live
      {
        assert PathOk(u, before);
      }
    }

    lemma MatchNames(kids: seq<Variable>, got: Option<seq<ChildInfo>>)
      ensures got.Some? && Match(kids, got.value) ==> NamesOf(kids) == Names(got.value)
      ensures kids == [] ==> NamesOf(kids) == []
    {
    }

    lemma ParentIsLive(v: Variable)
      requires PathsOk(live) && v in live
      ensures v.parent != null ==> v.parent in live
    {
      if v.parent != null {
        ChildPath(live, v);
      }
    }

    /**
     * Any run of the operations, references to children being released only while others remain. It keeps the registry
     * intact, and a root is there with the references its holders have exactly if they never gave the last one back.
     */
    method Session(ops: seq<Op>)
      requires Valid()
      modifies this, live
      ensures Valid()
      ensures forall u <- old(live) :: u.parent == null ==>
                                         && (u in live <==> Held(ops, u.name, old(u.refcnt)))
                                         && (u in live ==> u.refcnt == old(u.refcnt) + Net(ops, u.name))
    {
      hide *;
      assert ops[0..] == ops;
      var i := 0;
      while i < |ops|
        invariant 0 <= i <= |ops| && Valid() && forall u <- live :: u in old(live) || fresh(u)
        invariant forall u <- old(live) :: u.parent == null ==>
                    && (Held(ops, u.name, old(u.refcnt)) <==> u in live && Held(ops[i..], u.name, u.refcnt))
                    && (u in live ==> u.refcnt + Net(ops[i..], u.name) == old(u.refcnt) + Net(ops, u.name))
      {
        ghost var before := live;
        forall u <- old(live) | u.parent == null && u in live
          ensures Held(ops[i..], u.name, u.refcnt) <==>
                  u.refcnt + Delta(ops[i], u.name) >= 1 && Held(ops[i + 1..], u.name, u.refcnt + Delta(ops[i], u.name))
          ensures u.refcnt + Delta(ops[i], u.name) + Net(ops[i + 1..], u.name) == old(u.refcnt) + Net(ops, u.name)
        {
          HeldStep(ops, i, u.name, u.refcnt);
        }
        Perform(ops[i]);
        i := i + 1;
      }
      forall u <- old(live)
        ensures Net(ops[i..], u.name) == 0 && forall n: int :: Held(ops[i..], u.name, n)
      {
        NothingLeft(ops, i, u.name);
      }
    }

    lemma NothingLeft(ops: seq<Op>, i: nat, name: string)
      requires i == |ops|
      ensures Net(ops[i..], name) == 0 && forall n: int :: Held(ops[i..], name, n)
    {
    }

    /** A reference to a child protects nothing: when its root is released, the child is gone with it. */
    method ReleaseAbove(root: Variable, c: Variable)
      requires Valid() && root in live && root.parent == null && root.refcnt == 1 && c in live && root in c.path
      modifies this, root`refcnt, root`childs, Subtree(root)`childs
      ensures Valid() && c !in live && (c != root ==> c.refcnt == old(c.refcnt))
    {
      hide Valid, Named, Origins, PathsOk, PathOk, ChildsOk;
      assert c in Subtree(root);
      var r := Release(root, true);
    }

    method Perform(op: Op)
      requires Valid()
      modifies this, live
      ensures Valid() && fresh(live - old(live))
      ensures forall u <- old(live) :: u.parent == null ==>
                                         && (u in live <==> old(u.refcnt) + Delta(op, u.name) >= 1)
                                         && (u in live ==> u.refcnt == old(u.refcnt) + Delta(op, u.name))
      ensures match op
              case Acquiring(expr, origin, context, created, _) =>
                origin != Unknown && (Key(origin, context, expr) in old(vars) || created.Some?) ==>
                  Key(origin, context, expr) in vars
              case Releasing(name) => true
              case Expanding(name, answer) =>
                name in old(vars) && old(vars[name].childs) == [] && Usable(answer, old(vars.Keys)).Some? ==>
                  Match(old(vars)[name].childs, answer.value)
              case Refreshing(reply) => After(if reply == None then [] else reply.value, old(live), old(Facts(live)))
    {
      hide Named, Origins, PathsOk, ChildsOk, Elements, Key;
      NamesOfLive();
      match op {
        case Acquiring(expr, origin, context, created, described) =>
          var v := Acquire(expr, origin, context, created, described);
        case Releasing(name) =>
          if name in vars {
            LookupIsLive(name);
            var v := vars[name];
            if v.refcnt > 1 || v.parent == null {
              var r := Release(v, true);
            }
          }
        case Expanding(name, answer) =>
          if name in vars {
            LookupIsLive(name);
            var r := InitChilds(vars[name], answer);
          }
        case Refreshing(reply) =>
          var r := GetChanged(reply);
      }
    }
  }
}
