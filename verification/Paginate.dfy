/**
 Greedy pagination of a list of short strings, and that no split uses fewer pages.
 */
module Paginate {
  import opened Bytes

  const COMMA: byte := 0x2C
  const SPACE: byte := 0x20

  /** `table.concat(group, ", ")` */
  function Joined(group: seq<bytes>): bytes {
    if group == [] then []
    else if |group| == 1 then group[0]
    else group[0] + [COMMA, SPACE] + Joined(group[1..])
  }

  /** A page is its items with a comma and a space between each and the next. */
  lemma JoinedIs(a: bytes, rest: seq<bytes>)
    ensures Joined([a]) == a && (rest != [] ==> Joined([a] + rest) == a + OfText(", ") + Joined(rest))
  {
    assert ([a] + rest)[1..] == rest;
    assert OfText(", ") == [COMMA, SPACE];
  }

  function Flatten(groups: seq<seq<bytes>>): seq<bytes> {
    if groups == [] then [] else groups[0] + Flatten(groups[1..])
  }

  /** The groups the loop forms from here on, with `current` open and its tracked length. */
  function GroupsFrom(items: seq<bytes>, current: seq<bytes>, length: nat, width: int): seq<seq<bytes>> {
    if items == [] then if current == [] then [] else [current]
    else
      var item := items[0];
      var add := |item| + if length == 0 then 0 else 2;
      if length > 0 && length + add > width
      then [current] + GroupsFrom(items[1..], [item], |item|, width)
      else GroupsFrom(items[1..], current + [item], length + add, width)
  }

  function Groups(items: seq<bytes>, width: int): seq<seq<bytes>> { GroupsFrom(items, [], 0, width) }

  function Texts(groups: seq<seq<bytes>>): (r: seq<bytes>)
    ensures |r| == |groups|
  {
    seq(|groups|, i requires 0 <= i < |groups| => Joined(groups[i]))
  }

  /** `palmod.paginate`: always at least one page. */
  method Pages(items: seq<bytes>, width: int) returns (pages: seq<bytes>)
    ensures pages == if Groups(items, width) == [] then [[]] else Texts(Groups(items, width))
  {
    hide Joined;
    var current, length, i := [], 0, 0;
    pages := [];
    ghost var closed: seq<seq<bytes>> := [];
    assert items[0..] == items;
    while i < |items|
      invariant 0 <= i <= |items| && 0 <= length && pages == Texts(closed)
      invariant Groups(items, width) == closed + GroupsFrom(items[i..], current, length, width)
      invariant length > 0 ==> current != []
    {
      var item := items[i];
      assert items[i..][1..] == items[i + 1..];
      var add := |item| + if length == 0 then 0 else 2;
      if length > 0 && length + add > width {
        ConcatAssociates(closed, [current], GroupsFrom(items[i + 1..], [item], |item|, width));
        pages := pages + [Joined(current)];
        closed := closed + [current];
        current, length, add := [], 0, |item|;
        assert [] + [item] == [item];
      }
      current := current + [item];
      length := length + add;
      i := i + 1;
    }
    if |current| > 0 {
      pages := pages + [Joined(current)];
      closed := closed + [current];
    }
    assert Groups(items, width) == closed;
    if |pages| == 0 {
      pages := [[]];
    }
  }

  // ---------- Order and width ----------

  lemma {:induction false} GroupsFlatten(items: seq<bytes>, current: seq<bytes>, length: nat, width: int)
    ensures Flatten(GroupsFrom(items, current, length, width)) == current + items
    decreases |items|
  {
    if items == [] {
      assert current != [] ==> Flatten([current]) == current + Flatten([]) == current;
    } else {
      var item := items[0];
      var add := |item| + if length == 0 then 0 else 2;
      if length > 0 && length + add > width {
        GroupsFlatten(items[1..], [item], |item|, width);
        var rest := GroupsFrom(items[1..], [item], |item|, width);
        assert ([current] + rest)[1..] == rest;
        assert current + ([item] + items[1..]) == current + items;
      } else {
        GroupsFlatten(items[1..], current + [item], length + add, width);
        assert current + [item] + items[1..] == current + items;
      }
    }
  }

  /** The length a further item adds to a page that has something on it. */
  function Tail(items: seq<bytes>): nat {
    if items == [] then 0 else 2 + |items[0]| + Tail(items[1..])
  }

  function Width(group: seq<bytes>): nat {
    if group == [] then 0 else |group[0]| + Tail(group[1..])
  }

  lemma {:induction false} JoinedWidth(group: seq<bytes>)
    ensures |Joined(group)| == Width(group)
  {
    if |group| > 1 {
      JoinedWidth(group[1..]);
    }
  }

  lemma {:induction false} TailAppends(a: seq<bytes>, b: seq<bytes>)
    ensures Tail(a + b) == Tail(a) + Tail(b)
  {
    if a == [] {
      assert a + b == b;
    } else {
      assert (a + b)[1..] == a[1..] + b;
      TailAppends(a[1..], b);
    }
  }

  /** Only the last item may be empty. */
  ghost predicate NoEarlyEmpty(items: seq<bytes>) { forall i | 0 <= i < |items| - 1 :: items[i] != [] }

  /** A page that is narrow enough or holds a single item. */
  predicate Fits(group: seq<bytes>, width: int) { group != [] && (Width(group) <= width || |group| == 1) }

  ghost predicate AllFit(groups: seq<seq<bytes>>, width: int) {
    forall i | 0 <= i < |groups| :: Fits(groups[i], width)
  }

  lemma WidthAppends(current: seq<bytes>, item: bytes)
    ensures Width(current + [item]) == Width(current) + |item| + if current == [] then 0 else 2
  {
    if current == [] {
      assert current + [item] == [item];
    } else {
      assert (current + [item])[1..] == current[1..] + [item];
      TailAppends(current[1..], [item]);
    }
  }

  lemma {:induction false} GroupsFit(items: seq<bytes>, current: seq<bytes>, width: int)
    requires NoEarlyEmpty(items) && (current == [] || (Fits(current, width) && (Width(current) > 0 || items == [])))
    ensures AllFit(GroupsFrom(items, current, Width(current), width), width)
    decreases |items|
  {
    hide Width;
    if items != [] {
      var item := items[0];
      WidthAppends(current, item);
      WidthAppends([], item);
      EmptyWidth();
      assert [] + [item] == [item];
      if Width(current) > 0 && Width(current) + |item| + 2 > width {
        GroupsFit(items[1..], [item], width);
      } else {
        GroupsFit(items[1..], current + [item], width);
      }
    }
  }

  lemma EmptyWidth()
    ensures Width([]) == 0
  {
  }

  // ---------- Fewest pages ----------

  /** How many further items the loop puts on a page of the given width. */
  function Grow(items: seq<bytes>, length: nat, width: int): (n: nat)
    ensures n <= |items|
  {
    if items == [] || length + 2 + |items[0]| > width then 0
    else 1 + Grow(items[1..], length + 2 + |items[0]|, width)
  }

  lemma {:induction false} GroupsGrow(items: seq<bytes>, current: seq<bytes>, length: nat, width: int)
    requires current != [] && length > 0
    ensures var k := Grow(items, length, width);
            GroupsFrom(items, current, length, width) == [current + items[..k]] + Groups(items[k..], width)
    decreases |items|
  {
    if items == [] {
      assert current + [] == current;
    } else if length + 2 + |items[0]| > width {
      assert current + items[..0] == current && items[0..] == items;
      assert [] + [items[0]] == [items[0]];
    } else {
      var k := Grow(items[1..], length + 2 + |items[0]|, width);
      GroupsGrow(items[1..], current + [items[0]], length + 2 + |items[0]|, width);
      assert current + [items[0]] + items[1..][..k] == current + items[..k + 1];
      assert items[1..][k..] == items[k + 1..];
    }
  }

  /** The size of the first group. */
  function First(items: seq<bytes>, width: int): nat
    requires items != []
  {
    1 + Grow(items[1..], |items[0]|, width)
  }

  lemma LastAlone(items: seq<bytes>, width: int)
    requires |items| == 1
    ensures First(items, width) == 1 && Groups(items, width) == [items] == [items[..1]] + Groups(items[1..], width)
  {
    assert items == [] + [items[0]] && items[..1] == items && items[1..] == [];
    assert Groups(items, width) == GroupsFrom([], items, |items[0]|, width);
  }

  lemma GroupsAre(items: seq<bytes>, width: int)
    requires items != [] && (items[0] != [] || |items| == 1)
    ensures var g := First(items, width);
            1 <= g <= |items| && Groups(items, width) == [items[..g]] + Groups(items[g..], width)
  {
    var k := Grow(items[1..], |items[0]|, width);
    if items[0] != [] {
      GroupsGrow(items[1..], [items[0]], |items[0]|, width);
    } else {
      LastAlone(items, width);
    }
    assert [] + [items[0]] == [items[0]];
    assert [items[0]] + items[1..][..k] == items[..k + 1];
    assert items[1..][k..] == items[k + 1..];
  }

  /** No prefix that fits is longer than what the loop takes. */
  lemma {:induction false} GrowIsMost(items: seq<bytes>, length: nat, width: int, k: nat)
    requires k <= |items| && (k == 0 || length + Tail(items[..k]) <= width)
    ensures Grow(items, length, width) >= k
    decreases |items|
  {
    if k != 0 {
      assert items[..k][1..] == items[1..][..k - 1];
      GrowIsMost(items[1..], length + 2 + |items[0]|, width, k - 1);
    }
  }

  lemma FirstIsMost(items: seq<bytes>, width: int, k: nat)
    requires 1 <= k <= |items| && Fits(items[..k], width)
    ensures First(items, width) >= k
  {
    assert items[..k][1..] == items[1..][..k - 1];
    GrowIsMost(items[1..], |items[0]|, width, k - 1);
  }

  /** Taking any fitting first page is no better than what the loop does. */
  lemma {:induction false} AnyFirstPage(items: seq<bytes>, width: int, k: nat)
    requires NoEarlyEmpty(items) && 1 <= k <= |items| && Fits(items[..k], width)
    ensures |Groups(items, width)| <= 1 + |Groups(items[k..], width)|
    decreases |items|, 0
  {
    hide First, Groups, Fits;
    GroupsAre(items, width);
    FirstIsMost(items, width, k);
    var g := First(items, width);
    assert items[k..][g - k..] == items[g..];
    ShorterNeedsFewer(items[k..], width, g - k);
  }

  lemma {:induction false} ShorterNeedsFewer(items: seq<bytes>, width: int, j: nat)
    requires NoEarlyEmpty(items) && j <= |items|
    ensures |Groups(items[j..], width)| <= |Groups(items, width)|
    decreases |items|, 1, j
  {
    hide Groups;
    if j == 0 {
      assert items[0..] == items;
    } else {
      DropOne(items, width);
      assert items[1..][j - 1..] == items[j..];
      ShorterNeedsFewer(items[1..], width, j - 1);
    }
  }

  lemma {:induction false} DropOne(items: seq<bytes>, width: int)
    requires NoEarlyEmpty(items) && items != []
    ensures |Groups(items[1..], width)| <= |Groups(items, width)|
    decreases |items|, 0
  {
    hide Groups;
    GroupsAre(items, width);
    var g := First(items, width);
    if g > 1 {
      FirstFits(items, width);
      assert items[1..][..g - 1] == items[..g][1..] && items[1..][g - 1..] == items[g..];
      AnyFirstPage(items[1..], width, g - 1);
    }
  }

  /** The rest of a page that fits still fits. */
  lemma FirstFits(items: seq<bytes>, width: int)
    requires NoEarlyEmpty(items) && items != [] && 1 < First(items, width) <= |items|
    ensures Fits(items[..First(items, width)][1..], width)
  {
    GrowFits(items[1..], |items[0]|, width);
    var g := First(items, width);
    assert items[..g][1..] == items[1..][..g - 1];
  }

  lemma {:induction false} GrowFits(items: seq<bytes>, length: nat, width: int)
    ensures var k := Grow(items, length, width);
            k == 0 || (length + Tail(items[..k]) <= width && Width(items[..k]) <= width)
    decreases |items|
  {
    if Grow(items, length, width) != 0 {
      var k := Grow(items, length, width);
      GrowFits(items[1..], length + 2 + |items[0]|, width);
      assert items[..k][1..] == items[1..][..k - 1];
    }
  }

  /** Any order-preserving split into pages that fit uses at least as many pages. */
  lemma {:induction false} FewestPages(items: seq<bytes>, width: int, split: seq<seq<bytes>>)
    requires NoEarlyEmpty(items) && Flatten(split) == items && AllFit(split, width)
    ensures |Groups(items, width)| <= |split|
    decreases |split|
  {
    if split == [] {
      assert items == [];
    } else {
      var k := |split[0]|;
      assert items[..k] == split[0] && items[k..] == Flatten(split[1..]);
      AnyFirstPage(items, width, k);
      FewestPages(items[k..], width, split[1..]);
    }
  }

  /** The whole claim: the pages hold the items in order, each page fits or is a single item, and no
      other such split has fewer pages. */
  lemma PaginationIsOptimal(items: seq<bytes>, width: int)
    requires NoEarlyEmpty(items)
    ensures var groups := Groups(items, width);
            && Flatten(groups) == items
            && (forall i | 0 <= i < |groups| ::
                  groups[i] != [] && (|Joined(groups[i])| <= width || |groups[i]| == 1))
            && forall split: seq<seq<bytes>> | Flatten(split) == items && AllFit(split, width) ::
                 |groups| <= |split|
  {
    hide Width, Joined;
    GroupsFlatten(items, [], 0, width);
    assert [] + items == items;
    EmptyWidth();
    GroupsFit(items, [], width);
    var groups := Groups(items, width);
    forall i | 0 <= i < |groups|
      ensures groups[i] != [] && (|Joined(groups[i])| <= width || |groups[i]| == 1)
    {
      JoinedWidth(groups[i]);
    }
    forall split: seq<seq<bytes>> | Flatten(split) == items && AllFit(split, width)
      ensures |groups| <= |split|
    {
      FewestPages(items, width, split);
    }
  }

  /** An empty item is not counted as opening a page, so the page it opens can be too wide. */
  lemma EmptyItemOverflows()
    ensures var items: seq<bytes> := [[], [0x61, 0x62, 0x63]];
            var groups := Groups(items, 3);
            groups == [items] && |Joined(groups[0])| > 3 && |groups[0]| > 1
  {
    var a: bytes, b: bytes := [], [0x61, 0x62, 0x63];
    var items: seq<bytes> := [a, b];
    assert items[1..] == [b] && [b][1..] == [];
    assert [] + [a] == [a] && [a] + [b] == items;
    assert GroupsFrom(items, [], 0, 3) == GroupsFrom([b], [a], 0, 3) == GroupsFrom([], items, 3, 3);
    assert Joined([b]) == b;
  }

  // ---------- When the width is kept ----------

  /** An open page stays the head of the group it ends up in. */
  lemma {:induction false} PageExtends(items: seq<bytes>, current: seq<bytes>, length: nat, width: int)
    requires current != []
    ensures var groups := GroupsFrom(items, current, length, width); groups != [] && current <= groups[0]
    decreases |items|
  {
    if items != [] {
      var add := |items[0]| + if length == 0 then 0 else 2;
      if length == 0 || length + add <= width {
        PageExtends(items[1..], current + [items[0]], length + add, width);
      }
    }
  }

  lemma TwoNeverFit(group: seq<bytes>)
    requires |group| >= 2
    ensures !Fits(group, 0)
  {
    assert Tail(group[1..]) >= 2;
  }

  lemma {:induction false} LaterDoesNotFit(first: seq<bytes>, later: seq<seq<bytes>>, width: int)
    requires !AllFit(later, width)
    ensures !AllFit([first] + later, width)
  {
    hide Fits;
    var i :| 0 <= i < |later| && !Fits(later[i], width);
    assert ([first] + later)[i + 1] == later[i];
  }

  /** At width 0 an empty item that opens a page takes the next item with it. */
  lemma {:induction false} EmptyOpens(item: bytes, rest: seq<bytes>)
    requires !NoEarlyEmpty([item] + rest)
    ensures !AllFit(GroupsFrom(rest, [item], |item|, 0), 0)
    decreases |rest|
  {
    hide Fits;
    assert rest != [];
    if item == [] {
      PageExtends(rest[1..], [item] + [rest[0]], |rest[0]|, 0);
      TwoNeverFit(GroupsFrom(rest, [item], |item|, 0)[0]);
    } else {
      assert [rest[0]] + rest[1..] == rest;
      assert forall i | 0 <= i < |rest| - 1 :: rest[i] == ([item] + rest)[i + 1];
      EmptyOpens(rest[0], rest[1..]);
      LaterDoesNotFit([item], GroupsFrom(rest[1..], [rest[0]], |rest[0]|, 0), 0);
    }
  }

  /** Every page fits at every width exactly when no item but the last is empty. */
  lemma WidthKeptExactly(items: seq<bytes>)
    ensures (forall width: int :: AllFit(Groups(items, width), width)) <==> NoEarlyEmpty(items)
  {
    hide AllFit, Fits;
    if NoEarlyEmpty(items) {
      EmptyWidth();
      forall width: int
        ensures AllFit(Groups(items, width), width)
      {
        GroupsFit(items, [], width);
      }
    } else {
      assert [items[0]] + items[1..] == items && [] + [items[0]] == [items[0]];
      EmptyOpens(items[0], items[1..]);
      assert !AllFit(Groups(items, 0), 0);
    }
  }

  // ---------- Pages are full, and that leaves one split ----------

  /** A page that could not take the first item of the next. */
  predicate Full(group: seq<bytes>, next: seq<bytes>, width: int) {
    next != [] && Width(group + [next[0]]) > width
  }

  ghost predicate AllFull(groups: seq<seq<bytes>>, width: int) {
    forall i | 1 <= i < |groups| :: Full(groups[i - 1], groups[i], width)
  }

  lemma FullBefore(group: seq<bytes>, rest: seq<seq<bytes>>, width: int)
    requires AllFull(rest, width) && (rest != [] ==> Full(group, rest[0], width))
    ensures AllFull([group] + rest, width)
  {
  }

  lemma FullAfter(groups: seq<seq<bytes>>, width: int)
    requires groups != [] && AllFull(groups, width)
    ensures AllFull(groups[1..], width)
  {
  }

  lemma {:induction false} GroupsFull(items: seq<bytes>, current: seq<bytes>, length: nat, width: int)
    requires length <= Width(current) && (length > 0 ==> current != [])
    ensures AllFull(GroupsFrom(items, current, length, width), width)
    decreases |items|
  {
    hide Width;
    if items != [] {
      var item := items[0];
      WidthAppends(current, item);
      WidthAppends([], item);
      EmptyWidth();
      assert [] + [item] == [item];
      var add := |item| + if length == 0 then 0 else 2;
      if length > 0 && length + add > width {
        GroupsFull(items[1..], [item], |item|, width);
        PageExtends(items[1..], [item], |item|, width);
        var rest := GroupsFrom(items[1..], [item], |item|, width);
        assert rest[0][0] == item;
        FullBefore(current, rest, width);
      } else {
        GroupsFull(items[1..], current + [item], length + add, width);
      }
    }
  }

  lemma FullPageEnds(group: seq<bytes>, next: seq<bytes>, longer: seq<bytes>, width: int)
    requires group != [] && Full(group, next, width) && group + [next[0]] <= longer
    ensures !Fits(longer, width)
  {
    hide Width;
    var k := |group| + 1;
    assert longer[..k] == group + [next[0]];
    WidthGrows(longer, k);
  }

  /** Of two splits of the same items into full pages that fit, neither opens with the shorter page. */
  lemma FirstPageNotShorter(a: seq<seq<bytes>>, b: seq<seq<bytes>>, width: int)
    requires a != [] && b != [] && Flatten(a) == Flatten(b) && AllFull(a, width)
    requires Fits(a[0], width) && Fits(b[0], width)
    ensures |a[0]| >= |b[0]|
  {
    var items := Flatten(a);
    assert b[0] <= items;
    hide Flatten, Width;
    if |a[0]| < |b[0]| {
      assert |a| > 1 ==> Full(a[0], a[1], width);
      NextItem(a);
      FullPageEnds(a[0], a[1], b[0], width);
    }
  }

  /** The item after the first page opens the second. */
  lemma NextItem(a: seq<seq<bytes>>)
    requires a != [] && |a[0]| < |Flatten(a)| && (|a| > 1 ==> a[1] != [])
    ensures |a| > 1 && a[0] + [a[1][0]] <= Flatten(a)
  {
    assert Flatten(a) == a[0] + Flatten(a[1..]);
    assert a[1..] != [] && a[1..][0] == a[1];
    assert Flatten(a[1..]) == a[1] + Flatten(a[1..][1..]);
  }

  lemma {:induction false} WidthGrows(group: seq<bytes>, k: nat)
    requires k <= |group|
    ensures Width(group[..k]) <= Width(group)
    decreases |group| - k
  {
    hide Width;
    if k < |group| {
      assert group[..k + 1] == group[..k] + [group[k]];
      WidthAppends(group[..k], group[k]);
      WidthGrows(group, k + 1);
    } else {
      assert group[..k] == group;
    }
  }

  lemma {:induction false} FullSplitsAgree(a: seq<seq<bytes>>, b: seq<seq<bytes>>, width: int)
    requires Flatten(a) == Flatten(b)
    requires AllFit(a, width) && AllFit(b, width) && AllFull(a, width) && AllFull(b, width)
    ensures a == b
  {
    hide Width;
    assert a == [] <==> b == [] by {
      assert a != [] ==> Fits(a[0], width) && a[0] <= Flatten(a);
      assert b != [] ==> Fits(b[0], width) && b[0] <= Flatten(b);
    }
    if a != [] {
      FirstPageNotShorter(a, b, width);
      FirstPageNotShorter(b, a, width);
      var items, k := Flatten(a), |a[0]|;
      assert a[0] == items[..k] && b[0] == items[..k];
      assert Flatten(a[1..]) == items[k..] == Flatten(b[1..]);
      FullAfter(a, width);
      FullAfter(b, width);
      FullSplitsAgree(a[1..], b[1..], width);
      assert a == [a[0]] + a[1..] && b == [b[0]] + b[1..];
    }
  }

  /** Whatever the items, no page could have taken the next one's first item; and when no item but the
      last is empty, no other split of them has such pages that fit. */
  lemma PagesAreFull(items: seq<bytes>, width: int)
    ensures AllFull(Groups(items, width), width)
    ensures NoEarlyEmpty(items) ==>
              forall split | Flatten(split) == items && AllFit(split, width) && AllFull(split, width) ::
                split == Groups(items, width)
  {
    hide Width;
    EmptyWidth();
    GroupsFull(items, [], 0, width);
    if NoEarlyEmpty(items) {
      GroupsFlatten(items, [], 0, width);
      assert [] + items == items;
      GroupsFit(items, [], width);
      forall split | Flatten(split) == items && AllFit(split, width) && AllFull(split, width)
        ensures split == Groups(items, width)
      {
        FullSplitsAgree(split, Groups(items, width), width);
      }
    }
  }

  // ---------- How wide a page is, whatever the items ----------

  /** How many empty items a page opens with. */
  function Lead(group: seq<bytes>): (k: nat)
    ensures k <= |group| && (k < |group| ==> group[k] != [])
  {
    if group == [] || group[0] != [] then 0 else 1 + Lead(group[1..])
  }

  function Strip(group: seq<bytes>): seq<bytes> { group[Lead(group)..] }

  lemma {:induction false} LeadAppends(current: seq<bytes>, item: bytes)
    ensures Strip(current + [item]) == if Strip(current) == [] && item == [] then [] else Strip(current) + [item]
  {
    var more := current + [item];
    if current != [] && current[0] == [] {
      assert more[1..] == current[1..] + [item];
      LeadAppends(current[1..], item);
      assert Strip(current) == Strip(current[1..]) && Strip(more) == Strip(more[1..]);
    } else if current != [] {
      assert Strip(current) == current && Strip(more) == more;
    } else {
      assert more == [item];
    }
  }

  /** The length the loop tracks for an open page: that of the page without its leading empty items. */
  ghost predicate Tracked(current: seq<bytes>, length: nat, width: int) {
    length == Width(Strip(current)) && (Strip(current) == [] || (length > 0 && Fits(Strip(current), width)))
  }

  lemma TrackedAppends(current: seq<bytes>, item: bytes, length: nat, width: int)
    requires Tracked(current, length, width)
    ensures Tracked([item], |item|, width)
    ensures var add := |item| + if length == 0 then 0 else 2;
            length == 0 || length + add <= width ==> Tracked(current + [item], length + add, width)
  {
    hide Width;
    LeadAppends([], item);
    LeadAppends(current, item);
    WidthAppends([], item);
    WidthAppends(Strip(current), item);
    EmptyWidth();
    assert [] + [item] == [item];
  }

  lemma {:induction false} GroupsTracked(items: seq<bytes>, current: seq<bytes>, length: nat, width: int, i: nat)
    requires Tracked(current, length, width) && i < |GroupsFrom(items, current, length, width)|
    ensures var strip := Strip(GroupsFrom(items, current, length, width)[i]); strip == [] || Fits(strip, width)
    decreases |items|
  {
    hide Width, Strip;
    if items != [] {
      var item := items[0];
      var add := |item| + if length == 0 then 0 else 2;
      TrackedAppends(current, item, length, width);
      if length > 0 && length + add > width {
        if i > 0 {
          GroupsTracked(items[1..], [item], |item|, width, i - 1);
        }
      } else {
        GroupsTracked(items[1..], current + [item], length + add, width, i);
      }
    }
  }

  lemma {:induction false} LeadWidth(group: seq<bytes>)
    requires group != []
    ensures Width(group) == if Strip(group) == [] then 2 * (|group| - 1) else Width(Strip(group)) + 2 * Lead(group)
  {
    if group[0] == [] {
      assert Strip(group) == Strip(group[1..]);
      if |group| > 1 {
        LeadWidth(group[1..]);
      }
    } else {
      assert Strip(group) == group;
    }
  }

  /** Whatever the items, a page without its leading empty items fits, is a single item, or is
      nothing; each leading empty item adds two bytes that were not counted. */
  lemma OverflowIsLeadingEmpties(items: seq<bytes>, width: int, i: nat)
    requires i < |Groups(items, width)|
    ensures var group := Groups(items, width)[i];
            var strip, k := Strip(group), Lead(group);
            && group != []
            && (strip == [] || |Joined(strip)| <= width || |strip| == 1)
            && |Joined(group)| == if strip == [] then 2 * (k - 1) else |Joined(strip)| + 2 * k
  {
    hide Width, Joined, Strip;
    var group := Groups(items, width)[i];
    assert Tracked([], 0, width) by {
      NothingTracked(width);
    }
    GroupsTracked(items, [], 0, width, i);
    GroupsNonEmpty(items, [], 0, width);
    LeadWidth(group);
    JoinedWidth(group);
    JoinedWidth(Strip(group));
    StripSize(group);
  }

  lemma NothingTracked(width: int)
    ensures Tracked([], 0, width)
  {
  }

  lemma StripSize(group: seq<bytes>)
    ensures |Strip(group)| == |group| - Lead(group)
  {
  }

  /** At one given width, every page fits exactly when those that an empty item opened do. */
  lemma FitExactly(items: seq<bytes>, width: int)
    ensures var groups := Groups(items, width);
            AllFit(groups, width) <==>
            forall i | 0 <= i < |groups| && Lead(groups[i]) > 0 && |groups[i]| > 1 :: |Joined(groups[i])| <= width
  {
    hide Joined, Lead;
    var groups := Groups(items, width);
    forall i | 0 <= i < |groups|
      ensures Fits(groups[i], width) <==>
              (Lead(groups[i]) > 0 && |groups[i]| > 1 ==> |Joined(groups[i])| <= width)
    {
      OverflowIsLeadingEmpties(items, width, i);
      JoinedWidth(groups[i]);
    }
  }

  // ---------- Pages no wider than the width ----------

  lemma {:induction false} ItemWithin(group: seq<bytes>, j: nat)
    requires j < |group|
    ensures |group[j]| <= Width(group) && |group[j]| <= Tail(group)
  {
    if j > 0 {
      ItemWithin(group[1..], j - 1);
    }
  }

  ghost predicate NoneWider(items: seq<bytes>, width: int) { forall j | 0 <= j < |items| :: |items[j]| <= width }

  lemma {:induction false} FlattenNarrow(groups: seq<seq<bytes>>, width: int)
    ensures NoneWider(Flatten(groups), width) <==> forall i | 0 <= i < |groups| :: NoneWider(groups[i], width)
  {
    if groups != [] {
      FlattenNarrow(groups[1..], width);
      var a, b := groups[0], Flatten(groups[1..]);
      assert forall j | 0 <= j < |a| :: a[j] == (a + b)[j];
      assert forall j | 0 <= j < |b| :: b[j] == (a + b)[|a| + j];
      assert forall i | 1 <= i < |groups| :: groups[i] == groups[1..][i - 1];
      assert forall i | 0 <= i < |groups[1..]| :: groups[1..][i] == groups[i + 1];
    }
  }

  /** The documented promise, when no item but the last is empty: no page is wider than the width
      exactly when no item is. */
  lemma NarrowExactly(items: seq<bytes>, width: int)
    requires NoEarlyEmpty(items)
    ensures var groups := Groups(items, width);
            (forall i | 0 <= i < |groups| :: |Joined(groups[i])| <= width) <==> NoneWider(items, width)
  {
    hide Joined, Width;
    var groups := Groups(items, width);
    EmptyWidth();
    GroupsFit(items, [], width);
    GroupsFlatten(items, [], 0, width);
    assert [] + items == items;
    FlattenNarrow(groups, width);
    forall i | 0 <= i < |groups|
      ensures |Joined(groups[i])| <= width <==> NoneWider(groups[i], width)
    {
      GroupNarrow(groups[i], width);
    }
  }

  lemma GroupNarrow(group: seq<bytes>, width: int)
    requires Fits(group, width)
    ensures |Joined(group)| <= width <==> NoneWider(group, width)
  {
    JoinedWidth(group);
    if |Joined(group)| <= width {
      forall j | 0 <= j < |group|
        ensures |group[j]| <= width
      {
        ItemWithin(group, j);
      }
    } else {
      assert Width(group) == |group[0]|;
    }
  }

  // ---------- Reading a page back ----------

  /** A page cut at every ", ". */
  function Split(s: bytes, sofar: bytes): seq<bytes>
    decreases |s|
  {
    if s == [] then [sofar]
    else if |s| >= 2 && s[0] == COMMA && s[1] == SPACE then [sofar] + Split(s[2..], [])
    else Split(s[1..], sofar + [s[0]])
  }

  /** No ", " inside. */
  ghost predicate Clean(s: bytes) {
    forall i | 0 <= i < |s| - 1 :: !(s[i] == COMMA && s[i + 1] == SPACE)
  }

  ghost predicate AllClean(group: seq<bytes>) { forall i | 0 <= i < |group| :: Clean(group[i]) }

  lemma {:induction false} SplitItem(item: bytes, sofar: bytes, rest: bytes)
    requires Clean(item)
    ensures Split(item, sofar) == [sofar + item]
    ensures Split(item + [COMMA, SPACE] + rest, sofar) == [sofar + item] + Split(rest, [])
    decreases |item|
  {
    var s := item + [COMMA, SPACE] + rest;
    if item == [] {
      assert s == [COMMA, SPACE] + rest && s[2..] == rest && sofar + item == sofar;
    } else {
      assert s[1..] == item[1..] + [COMMA, SPACE] + rest;
      assert s[0] == item[0] && s[1] == if |item| > 1 then item[1] else COMMA;
      forall i | 0 <= i < |item[1..]| - 1
        ensures !(item[1..][i] == COMMA && item[1..][i + 1] == SPACE)
      {
        assert item[1..][i] == item[i + 1] && item[1..][i + 1] == item[i + 2];
      }
      SplitItem(item[1..], sofar + [item[0]], rest);
      assert sofar + [item[0]] + item[1..] == sofar + item;
    }
  }

  lemma {:induction false} SplitJoined(group: seq<bytes>)
    requires group != [] && AllClean(group)
    ensures Split(Joined(group), []) == group
  {
    hide Clean, Split;
    SplitItem(group[0], [], Joined(group[1..]));
    assert [] + group[0] == group[0];
    if |group| > 1 {
      SplitJoined(group[1..]);
      assert group == [group[0]] + group[1..];
    } else {
      assert group == [group[0]];
    }
  }

  lemma {:induction false} PiecesAreClean(s: bytes, sofar: bytes)
    requires Clean(sofar) && !(sofar != [] && sofar[|sofar| - 1] == COMMA && s != [] && s[0] == SPACE)
    ensures forall i | 0 <= i < |Split(s, sofar)| :: Clean(Split(s, sofar)[i])
    decreases |s|
  {
    if s != [] {
      if |s| >= 2 && s[0] == COMMA && s[1] == SPACE {
        PiecesAreClean(s[2..], []);
      } else {
        PiecesAreClean(s[1..], sofar + [s[0]]);
      }
    }
  }

  /** A page splits back into its items exactly when none of them contains the separator. */
  lemma SplitsBackExactly(group: seq<bytes>)
    requires group != []
    ensures Split(Joined(group), []) == group <==> AllClean(group)
  {
    PiecesAreClean(Joined(group), []);
    if AllClean(group) {
      SplitJoined(group);
    }
  }

  lemma {:induction false} FlattenClean(groups: seq<seq<bytes>>)
    ensures AllClean(Flatten(groups)) <==> forall i | 0 <= i < |groups| :: AllClean(groups[i])
  {
    hide Clean;
    if groups != [] {
      FlattenClean(groups[1..]);
      CleanConcat(groups[0], Flatten(groups[1..]));
      assert forall i | 1 <= i < |groups| :: groups[i] == groups[1..][i - 1];
      assert forall i | 0 <= i < |groups[1..]| :: groups[1..][i] == groups[i + 1];
    }
  }

  lemma CleanConcat(a: seq<bytes>, b: seq<bytes>)
    ensures AllClean(a + b) <==> AllClean(a) && AllClean(b)
  {
    hide Clean;
    var c := a + b;
    assert forall i | 0 <= i < |a| :: a[i] == c[i];
    assert forall i | 0 <= i < |b| :: b[i] == c[|a| + i];
  }

  lemma {:induction false} GroupsNonEmpty(items: seq<bytes>, current: seq<bytes>, length: nat, width: int)
    requires length > 0 ==> current != []
    ensures forall i | 0 <= i < |GroupsFrom(items, current, length, width)| ::
              GroupsFrom(items, current, length, width)[i] != []
    decreases |items|
  {
    if items != [] {
      var add := |items[0]| + if length == 0 then 0 else 2;
      GroupsNonEmpty(items[1..], [items[0]], |items[0]|, width);
      GroupsNonEmpty(items[1..], current + [items[0]], length + add, width);
    }
  }

  function SplitAll(pages: seq<bytes>): seq<seq<bytes>> {
    seq(|pages|, i requires 0 <= i < |pages| => Split(pages[i], []))
  }

  /** The pages, cut at every ", ", are the groups, and so the items in order, exactly when no item
      contains the separator. */
  lemma PagesSplitBackExactly(items: seq<bytes>, width: int)
    ensures var groups := Groups(items, width);
            && Flatten(groups) == items
            && (SplitAll(Texts(groups)) == groups <==> AllClean(items))
  {
    hide Split, Joined, AllClean;
    var groups := Groups(items, width);
    GroupsFlatten(items, [], 0, width);
    assert [] + items == items;
    GroupsNonEmpty(items, [], 0, width);
    FlattenClean(groups);
    var back := SplitAll(Texts(groups));
    forall i | 0 <= i < |groups|
      ensures back[i] == groups[i] <==> AllClean(groups[i])
    {
      SplitsBackExactly(groups[i]);
    }
  }
}
