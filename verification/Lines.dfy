/** Output as a list of screen lines, some of them standing for an object that the line map leads back to. */
module Lines {
  import opened Options
  import opened Buffers

  /** One screen line, without its newline. */
  datatype Item<T> = Item(text: string, tag: Option<T>)

  function Rendered<T>(item: Item<T>): string {
    item.text + "\n"
  }

  function Render<T>(items: seq<Item<T>>): string {
    if items == [] then "" else Render(items[..|items| - 1]) + Rendered(items[|items| - 1])
  }

  lemma {:induction false} RenderConcat<T>(a: seq<Item<T>>, b: seq<Item<T>>)
    ensures Render(a + b) == Render(a) + Render(b)
    decreases |b|
  {
    if b == [] {
      assert a + b == a;
    } else {
      assert (a + b)[..|a + b| - 1] == a + b[..|b| - 1];
      RenderConcat(a, b[..|b| - 1]);
    }
  }

  /** Line map entries for items printed from `line` on. */
  function Entries<T>(items: seq<Item<T>>, line: nat): seq<Entry<T>> {
    if items == [] then []
    else
      var n := |items| - 1;
      Entries(items[..n], line) + if items[n].tag.Some? then [Entry(line + n, items[n].tag.value)] else []
  }

  lemma {:induction false} EntriesConcat<T>(a: seq<Item<T>>, b: seq<Item<T>>, line: nat)
    ensures Entries(a + b, line) == Entries(a, line) + Entries(b, line + |a|)
    decreases |b|
  {
    if b == [] {
      assert a + b == a;
    } else {
      var n := |b| - 1;
      assert (a + b)[..|a + b| - 1] == a + b[..n];
      EntriesConcat(a, b[..n], line);
    }
  }

  /** Output of printing: text, line number and line map all advanced by the same items. */
  ghost predicate Printed<T>(items: seq<Item<T>>, text0: string, text: string, line0: nat, line: nat,
                             map0: seq<Entry<T>>, map1: seq<Entry<T>>) {
    text == text0 + Render(items) && line == line0 + |items| && map1 == map0 + Entries(items, line0)
  }

  lemma PrintedNothing<T>(text: string, line: nat, m: seq<Entry<T>>)
    ensures Printed([], text, text, line, line, m, m)
  {
  }

  lemma PrintedThen<T>(a: seq<Item<T>>, b: seq<Item<T>>, text0: string, text1: string, text2: string,
                       line0: nat, line1: nat, line2: nat, m0: seq<Entry<T>>, m1: seq<Entry<T>>, m2: seq<Entry<T>>)
    requires Printed(a, text0, text1, line0, line1, m0, m1) && Printed(b, text1, text2, line1, line2, m1, m2)
    ensures Printed(a + b, text0, text2, line0, line2, m0, m2)
  {
    hide Render, Entries;
    RenderConcat(a, b);
    EntriesConcat(a, b, line0);
  }

  lemma PrintedOne<T>(item: Item<T>, text: string, line: nat, m: seq<Entry<T>>)
    ensures Printed([item], text, text + Rendered(item), line, line + 1, m,
                    if item.tag.Some? then m + [Entry(line, item.tag.value)] else m)
  {
    assert [item][..0] == [];
    assert m + [] == m;
  }

  lemma {:induction false} EntriesIncrease<T>(items: seq<Item<T>>, line: nat)
    ensures Increasing(Entries(items, line))
    ensures forall e <- Entries(items, line) :: line <= e.line < line + |items|
    decreases |items|
  {
    if items != [] {
      EntriesIncrease(items[..|items| - 1], line);
    }
  }

  /** The object a screen line belongs to: its own, or that of the nearest line above that has one. */
  function Owner<T>(items: seq<Item<T>>, k: nat): Option<T>
    requires k < |items|
  {
    if items[k].tag.Some? || k == 0 then items[k].tag else Owner(items, k - 1)
  }

  lemma OwnerOfFront<T>(items: seq<Item<T>>, n: nat, k: nat)
    requires k < n <= |items|
    ensures Owner(items[..n], k) == Owner(items, k)
  {
  }

  /** `find` gives, for every screen line, the object the line belongs to. */
  lemma {:induction false} FindsOwner<T>(items: seq<Item<T>>, line: nat, k: nat)
    requires k < |items|
    ensures Lookup(Entries(items, line), line + k) == Owner(items, k)
    decreases |items|
  {
    hide *;
    var n := |items| - 1;
    var front := Entries(items[..n], line);
    EntriesIncrease(items[..n], line);
    EntriesMore(items, line);
    OwnerIs(items, k);
    if k < n {
      OwnerOfFront(items, n, k);
      FindsOwner(items[..n], line, k);
      if items[n].tag.Some? {
        LookupSkips(front, Entry(line + n, items[n].tag.value), line + k);
      }
    } else if items[n].tag.Some? {
      LookupHits(front, Entry(line + n, items[n].tag.value), line + k);
    } else if n > 0 {
      OwnerOfFront(items, n, n - 1);
      FindsOwner(items[..n], line, n - 1);
      LookupBeyond(front, line + n - 1, line + n);
    } else {
      NoEntry<T>(line, line + k);
      assert items[..n] == [];
    }
  }

  lemma EntriesMore<T>(items: seq<Item<T>>, line: nat)
    requires items != []
    ensures var n := |items| - 1;
            Entries(items, line) ==
            if items[n].tag.Some? then Entries(items[..n], line) + [Entry(line + n, items[n].tag.value)]
            else Entries(items[..n], line)
  {
    var n := |items| - 1;
    assert Entries(items[..n], line) + [] == Entries(items[..n], line);
  }

  lemma OwnerIs<T>(items: seq<Item<T>>, k: nat)
    requires k < |items|
    ensures Owner(items, k) == if items[k].tag.Some? || k == 0 then items[k].tag else Owner(items, k - 1)
  {
  }

  lemma NoEntry<T>(line: nat, at: nat)
    ensures Lookup(Entries<T>([], line), at) == None
  {
  }

  lemma LookupSkips<T>(v: seq<Entry<T>>, e: Entry<T>, line: nat)
    requires line < e.line
    ensures Lookup(v + [e], line) == Lookup(v, line)
  {
    assert (v + [e])[..|v + [e]| - 1] == v;
  }

  lemma LookupHits<T>(v: seq<Entry<T>>, e: Entry<T>, line: nat)
    requires e.line <= line
    ensures Lookup(v + [e], line) == Some(e.data)
  {
  }

  lemma LookupBeyond<T>(v: seq<Entry<T>>, l: nat, m: nat)
    requires l <= m && forall e <- v :: e.line <= l
    ensures Lookup(v, m) == Lookup(v, l)
  {
    if v != [] {
      assert v[|v| - 1] in v;
    }
  }

  /** No line holds the character. */
  predicate Without<T>(items: seq<Item<T>>, c: char) {
    forall k | 0 <= k < |items| :: c !in items[k].text
  }

  /** Every item is one screen line. */
  predicate Plain<T>(items: seq<Item<T>>) {
    Without(items, '\n')
  }

  lemma WithoutConcat<T>(a: seq<Item<T>>, b: seq<Item<T>>, c: char)
    ensures Without(a + b, c) <==> Without(a, c) && Without(b, c)
  {
    if Without(a + b, c) {
      forall k | 0 <= k < |b|
        ensures c !in b[k].text
      {
        assert (a + b)[|a| + k] == b[k];
      }
      forall k | 0 <= k < |a|
        ensures c !in a[k].text
      {
        assert (a + b)[k] == a[k];
      }
    }
  }

  lemma WithoutOne<T>(item: Item<T>, c: char)
    ensures Without([item], c) <==> c !in item.text
  {
    assert [item][0] == item;
  }

  lemma NoItems<T>(c: char)
    ensures Render<T>([]) == "" && Without<T>([], c)
  {
  }

  /** The last of some items. */
  lemma LastItem<T>(items: seq<Item<T>>)
    requires items != []
    ensures items == items[..|items| - 1] + [items[|items| - 1]]
    ensures Render(items) == Render(items[..|items| - 1]) + Rendered(items[|items| - 1])
  {
    hide Rendered;
    LastOf(items);
  }

  lemma LastOf<T>(s: seq<T>)
    requires s != []
    ensures s == s[..|s| - 1] + [s[|s| - 1]]
  {
    hide *;
  }

  lemma RenderedIs<T>(item: Item<T>)
    ensures Rendered(item) == item.text + "\n"
  {
  }

  /** Every item completes a screen line, and they complete just one each exactly if none of them holds a newline. */
  lemma {:induction false} AtLeastOneEach<T>(items: seq<Item<T>>)
    ensures Newlines(Render(items)) >= |items|
    ensures Newlines(Render(items)) == |items| <==> Plain(items)
    decreases |items|
  {
    hide Newlines, Render, Rendered, Without;
    if items == [] {
      NoItems<T>('\n');
      NoNewlines("");
    } else {
      var n := |items| - 1;
      var front, text := items[..n], items[n].text;
      LastItem(items);
      RenderedIs(items[n]);
      AtLeastOneEach(front);
      NewlinesConcat(Render(front), text + "\n");
      NewlinesConcat(text, "\n");
      OneNewline(text);
      WithoutConcat(front, [items[n]], '\n');
      WithoutOne(items[n], '\n');
    }
  }

  lemma OneNewline(text: string)
    ensures Newlines("\n") == 1
    ensures Newlines(text) == 0 <==> '\n' !in text
  {
    assert "\n"[..0] == "";
    NewlinesIn(text);
  }

  /** The characters of a rendered text, apart from the newlines that end the lines. */
  lemma {:induction false} RenderedChars<T>(items: seq<Item<T>>, c: char)
    requires c != '\n'
    ensures c !in Render(items) <==> Without(items, c)
    decreases |items|
  {
    hide Render, Rendered, Without;
    if items == [] {
      NoItems<T>(c);
    } else {
      var n := |items| - 1;
      LastItem(items);
      RenderedIs(items[n]);
      RenderedChars(items[..n], c);
      WithoutConcat(items[..n], [items[n]], c);
      WithoutOne(items[n], c);
    }
  }

  /**
   * Printing into an empty window: the map leads from every line counted to the object it belongs to, and the counter
   * is in step with the lines written exactly if no item holds a newline. If one does, what follows it is counted short.
   */
  lemma LinesLeadBack<T>(items: seq<Item<T>>, text: string, line: nat, m: seq<Entry<T>>)
    requires Printed(items, "", text, 1, line, [], m)
    ensures line == 1 + |items| <= 1 + Newlines(text) && Increasing(m)
    ensures line == 1 + Newlines(text) <==> Plain(items)
    ensures forall k | 0 <= k < |items| :: Lookup(m, 1 + k) == Owner(items, k)
    ensures forall k | 0 <= k <= |items| ::
              Newlines(Render(items[..k])) >= k && (Newlines(Render(items[..k])) == k <==> Plain(items[..k]))
  {
    hide Render, Entries, Owner, Plain, Newlines;
    AtLeastOneEach(items);
    assert "" + Render(items) == Render(items);
    assert [] + Entries(items, 1) == Entries(items, 1);
    EntriesIncrease(items, 1);
    forall k | 0 <= k < |items|
      ensures Lookup(m, 1 + k) == Owner(items, k)
    {
      FindsOwner(items, 1, k);
    }
    forall k | 0 <= k <= |items|
      ensures Newlines(Render(items[..k])) >= k && (Newlines(Render(items[..k])) == k <==> Plain(items[..k]))
    {
      AtLeastOneEach(items[..k]);
    }
  }

  /** In particular, the line counted for an object leads back to that object. */
  lemma ObjectsAreFound<T>(items: seq<Item<T>>, text: string, line: nat, m: seq<Entry<T>>)
    requires Printed(items, "", text, 1, line, [], m)
    ensures line <= 1 + Newlines(text) && (line == 1 + Newlines(text) <==> Plain(items)) && Increasing(m)
    ensures forall k | 0 <= k < |items| && items[k].tag.Some? :: Lookup(m, 1 + k) == items[k].tag
  {
    hide *;
    LinesLeadBack(items, text, line, m);
    forall k | 0 <= k < |items| && items[k].tag.Some?
      ensures Lookup(m, 1 + k) == items[k].tag
    {
      OwnerIs(items, k);
    }
  }

  /** All entries stand for items. */
  lemma {:induction false} EntriesFrom<T>(items: seq<Item<T>>, line: nat)
    ensures forall e <- Entries(items, line) :: exists item <- items :: item.tag == Some(e.data)
    decreases |items|
  {
    if items != [] {
      var n := |items| - 1;
      EntriesFrom(items[..n], line);
      assert forall item <- items[..n] :: item in items;
      assert items[n] in items;
    }
  }
}
