/**
 * The browser-side view logic of the catalogue page: the search filter,
 * the page arithmetic, the pagination controls and the lookup of an item by
 * the name shown in its row.
 */
module Catalogue {

  import opened Wrappers
  import opened Inventory

  // ---------------------------------------------------------------- strings

  /** `toLowerCase` on one character (ASCII letters only). */
  function LowerChar(c: char): char {
    if 'A' <= c <= 'Z' then (c as int - 'A' as int + 'a' as int) as char else c
  }

  /** `String.prototype.toLowerCase`, restricted to ASCII letters. */
  function Lower(s: string): (r: string)
    ensures |r| == |s|
    ensures forall i :: 0 <= i < |s| ==> r[i] == LowerChar(s[i])
    ensures forall i :: 0 <= i < |r| ==> !('A' <= r[i] <= 'Z')
  {
    seq(|s|, i requires 0 <= i < |s| => LowerChar(s[i]))
  }

  /** The characters `String.prototype.trim` removes: WhiteSpace and LineTerminator of ECMAScript. */
  predicate IsWhiteSpace(c: char) {
    || c == '\t' || c == '\n' || c == '\U{000B}' || c == '\U{000C}' || c == '\r' || c == ' '
    || c == '\U{00A0}' || c == '\U{1680}' || ('\U{2000}' <= c <= '\U{200A}')
    || c == '\U{2028}' || c == '\U{2029}' || c == '\U{202F}' || c == '\U{205F}'
    || c == '\U{3000}' || c == '\U{FEFF}'
  }

  /** Where `trim` starts keeping characters: skip white space from `i` on. */
  function TrimStartIndex(s: string, i: nat): (r: nat)
    requires i <= |s|
    ensures i <= r <= |s|
    ensures forall k :: i <= k < r ==> IsWhiteSpace(s[k])
    ensures r == |s| || !IsWhiteSpace(s[r])
    decreases |s| - i
  {
    if i < |s| && IsWhiteSpace(s[i]) then TrimStartIndex(s, i + 1) else i
  }

  /** Where `trim` stops keeping characters: skip white space backwards from `j` down to `lo`. */
  function TrimEndIndex(s: string, lo: nat, j: nat): (r: nat)
    requires lo <= j <= |s|
    ensures lo <= r <= j
    ensures forall k :: r <= k < j ==> IsWhiteSpace(s[k])
    ensures r == lo || !IsWhiteSpace(s[r - 1])
    decreases j
  {
    if lo < j && IsWhiteSpace(s[j - 1]) then TrimEndIndex(s, lo, j - 1) else j
  }

  /** `r` is `s[a..b]` and everything outside `a..b` is white space. */
  predicate TrimmedAt(s: string, r: string, a: int, b: int) {
    && 0 <= a <= b <= |s| && r == s[a..b]
    && (forall i :: 0 <= i < a ==> IsWhiteSpace(s[i]))
    && (forall i :: b <= i < |s| ==> IsWhiteSpace(s[i]))
  }

  /** `String.prototype.trim`. */
  function Trim(s: string): (r: string)
    ensures r == [] || (!IsWhiteSpace(r[0]) && !IsWhiteSpace(r[|r| - 1]))
    ensures exists a, b :: TrimmedAt(s, r, a, b)
  {
    var a := TrimStartIndex(s, 0);
    var b := TrimEndIndex(s, a, |s|);
    assert TrimmedAt(s, s[a..b], a, b);
    s[a..b]
  }

  /** `search.value.toLowerCase().trim()`: the search term the filter uses. */
  function SearchTerm(raw: string): (r: string)
    ensures |r| <= |raw|
    ensures forall i :: 0 <= i < |r| ==> !('A' <= r[i] <= 'Z')
    ensures r == [] || (!IsWhiteSpace(r[0]) && !IsWhiteSpace(r[|r| - 1]))
    ensures exists a, b :: TrimmedAt(Lower(raw), r, a, b)
  {
    var lower := Lower(raw);
    var r := Trim(lower);
    var a, b :| TrimmedAt(lower, r, a, b);
    NoUpperInSlice(lower, a, b);
    r
  }

  /** A slice of a string without upper-case ASCII letters has none either. */
  lemma NoUpperInSlice(s: string, a: int, b: int)
    requires 0 <= a <= b <= |s|
    requires forall i :: 0 <= i < |s| ==> !('A' <= s[i] <= 'Z')
    ensures forall i :: 0 <= i < b - a ==> !('A' <= s[a..b][i] <= 'Z')
  {
    forall i | 0 <= i < b - a
      ensures !('A' <= s[a..b][i] <= 'Z')
    {
      assert s[a..b][i] == s[a + i];
    }
  }

  /** `sub` occurs in `s` starting at position `i`. */
  predicate OccursAt(s: string, sub: string, i: int) {
    0 <= i <= |s| - |sub| && s[i..i + |sub|] == sub
  }

  /** `String.prototype.includes`: scan for `sub` from left to right. */
  function Includes(s: string, sub: string): (r: bool)
    ensures sub == [] ==> r
    ensures r ==> |sub| <= |s|
    decreases |s|
  {
    if |sub| <= |s| && s[..|sub|] == sub then true
    else if s == [] then false
    else Includes(s[1..], sub)
  }

  /** The scan finds `sub` exactly when it occurs somewhere in `s`. */
  lemma {:induction false} IncludesIff(s: string, sub: string)
    ensures Includes(s, sub) <==> exists i :: OccursAt(s, sub, i)
    decreases |s|
  {
    if |sub| <= |s| && s[..|sub|] == sub {
      assert OccursAt(s, sub, 0);
    } else if s == [] {
    } else {
      IncludesIff(s[1..], sub);
      if exists i :: OccursAt(s[1..], sub, i) {
        var i :| OccursAt(s[1..], sub, i);
        assert s[i + 1..i + 1 + |sub|] == s[1..][i..i + |sub|];
        assert OccursAt(s, sub, i + 1);
      }
      if exists i :: OccursAt(s, sub, i) {
        var i :| OccursAt(s, sub, i);
        assert i != 0;
        assert s[1..][i - 1..i - 1 + |sub|] == s[i..i + |sub|];
        assert OccursAt(s[1..], sub, i - 1);
      }
    }
  }

  // ----------------------------------------------------------------- filter

  /** A nullable column matches only when present, non-empty and containing the term. */
  predicate FieldMatches(field: Option<string>, search: string) {
    field.Some? && field.value != "" && Includes(Lower(field.value), search)
  }

  /** The predicate `loadItems` passes to `items.filter`. */
  predicate Matches(item: Item, search: string) {
    || search == ""
    || Includes(Lower(item.id), search)
    || FieldMatches(item.name, search)
    || FieldMatches(item.description, search)
    || FieldMatches(item.user, search)
  }

  /**
   * A column matches exactly when it is present, not empty (`''` is falsy),
   * and the term occurs in its lower-cased text.
   */
  lemma FieldMatchesIff(field: Option<string>, search: string)
    ensures FieldMatches(field, search)
        <==> field.Some? && field.value != "" && exists i :: OccursAt(Lower(field.value), search, i)
  {
    if field.Some? {
      IncludesIff(Lower(field.value), search);
    }
  }

  /** `a` is `b` with some elements left out, the rest in their order. */
  predicate IsSubsequence<T(==)>(a: seq<T>, b: seq<T>)
    decreases |b|
  {
    if a == [] then true
    else if b == [] then false
    else (a[0] == b[0] && IsSubsequence(a[1..], b[1..])) || IsSubsequence(a, b[1..])
  }

  /** `items.filter(item => Matches(item, search))`. */
  function Filter(items: seq<Item>, search: string): (r: seq<Item>)
    ensures IsSubsequence(r, items)
    ensures forall x :: x in r <==> x in items && Matches(x, search)
    ensures |r| <= |items|
    ensures forall x :: multiset(r)[x] == if Matches(x, search) then multiset(items)[x] else 0
  {
    if items == [] then []
    else
      assert items == [items[0]] + items[1..];
      if Matches(items[0], search) then [items[0]] + Filter(items[1..], search)
      else Filter(items[1..], search)
  }

  /** An empty search term keeps every item, in order. */
  lemma {:induction false} FilterEmptySearch(items: seq<Item>)
    ensures Filter(items, "") == items
  {
    if items != [] {
      FilterEmptySearch(items[1..]);
      assert [items[0]] + items[1..] == items;
    }
  }

  /**
   * With a non-empty term an item is kept iff its id, or one of its name,
   * description and user that is present, contains the term.
   */
  lemma MatchesNonEmpty(item: Item, search: string)
    requires search != ""
    ensures Matches(item, search) <==>
      || (exists i :: OccursAt(Lower(item.id), search, i))
      || (item.name.Some? && exists i :: OccursAt(Lower(item.name.value), search, i))
      || (item.description.Some? && exists i :: OccursAt(Lower(item.description.value), search, i))
      || (item.user.Some? && exists i :: OccursAt(Lower(item.user.value), search, i))
  {
    IncludesIff(Lower(item.id), search);
    FieldMatchesIff(item.name, search);
    FieldMatchesIff(item.description, search);
    FieldMatchesIff(item.user, search);
  }

  // ------------------------------------------------------------- pagination

  const ItemsPerPage := 10

  /** `Math.ceil(n / itemsPerPage)`. */
  function TotalPages(n: nat): (pages: nat)
    ensures pages * ItemsPerPage >= n
    ensures pages == 0 || (pages - 1) * ItemsPerPage < n
    ensures pages == 0 <==> n == 0
  {
    (n + ItemsPerPage - 1) / ItemsPerPage
  }

  /** How `Array.prototype.slice` turns a (possibly negative) bound into an index. */
  function SliceIndex(i: int, len: nat): (r: nat)
    ensures r <= len
  {
    if i < 0 then (if len + i < 0 then 0 else len + i)
    else if i < len then i else len
  }

  /** Converting two ordered bounds never widens the gap between them. */
  lemma SliceIndexGap(a: int, b: int, len: nat)
    requires a <= b
    ensures SliceIndex(b, len) - SliceIndex(a, len) <= b - a
  {
  }

  /** `Array.prototype.slice(start, end)`. */
  function Slice<T>(xs: seq<T>, start: int, end: int): (r: seq<T>)
    ensures start <= end ==> |r| <= end - start
    ensures 0 <= start <= end ==> r == xs[SliceIndex(start, |xs|)..SliceIndex(end, |xs|)]
  {
    var from, to := SliceIndex(start, |xs|), SliceIndex(end, |xs|);
    if from < to then
      (if start <= end then SliceIndexGap(start, end, |xs|); xs[from..to] else xs[from..to])
    else []
  }

  /** `filteredItems.slice((page - 1) * itemsPerPage, page * itemsPerPage)`. */
  function PageSlice<T>(xs: seq<T>, page: int): (r: seq<T>)
    ensures |r| <= ItemsPerPage
    ensures 1 <= page <= TotalPages(|xs|) ==>
              r == xs[(page - 1) * ItemsPerPage..if page * ItemsPerPage <= |xs| then page * ItemsPerPage else |xs|]
    ensures 1 <= page < TotalPages(|xs|) ==> |r| == ItemsPerPage
    ensures page == 0 || page > TotalPages(|xs|) ==> r == []
    ensures page < 0 && (1 - page) * ItemsPerPage <= |xs| ==>
              r == xs[|xs| + (page - 1) * ItemsPerPage..|xs| + page * ItemsPerPage]
    ensures page < 0 && |xs| <= -page * ItemsPerPage ==> r == []
  {
    var start := (page - 1) * ItemsPerPage;
    Slice(xs, start, start + ItemsPerPage)
  }

  /** Pages `first` to `last`, one after the other. */
  function Pages<T>(xs: seq<T>, first: int, last: int): seq<T>
    decreases last - first
  {
    if first > last then [] else PageSlice(xs, first) + Pages(xs, first + 1, last)
  }

  /** Pages `first..TotalPages` together are the list from page `first` on. */
  lemma {:induction false} PagesFrom<T>(xs: seq<T>, first: int)
    requires 1 <= first <= TotalPages(|xs|)
    ensures Pages(xs, first, TotalPages(|xs|)) == xs[(first - 1) * ItemsPerPage..]
    decreases TotalPages(|xs|) - first
  {
    var n := TotalPages(|xs|);
    var lo := (first - 1) * ItemsPerPage;
    if first == n {
      assert Pages(xs, first + 1, n) == [];
      assert PageSlice(xs, first) == xs[lo..];
    } else {
      PagesFrom(xs, first + 1);
      assert PageSlice(xs, first) == xs[lo..first * ItemsPerPage];
      assert xs[lo..first * ItemsPerPage] + xs[first * ItemsPerPage..] == xs[lo..];
    }
  }

  /** Pages 1 to `TotalPages` concatenated reproduce the filtered list exactly. */
  lemma PagesPartition<T>(xs: seq<T>)
    ensures Pages(xs, 1, TotalPages(|xs|)) == xs
  {
    if xs != [] {
      PagesFrom(xs, 1);
    }
  }

  // ---------------------------------------------------- pagination controls

  /** A numbered page link and whether it carries the `active` class. */
  datatype PageButton = PageButton(number: int, active: bool)

  /**
   * The pagination bar: nothing, or "Previous", one button per page and
   * "Next", each link carrying the page it loads.
   */
  datatype Controls =
    | Hidden
    | Shown(prevDisabled: bool, prevTarget: int, buttons: seq<PageButton>, nextDisabled: bool, nextTarget: int)

  /** The pagination bar `loadItems` builds for `currentPage` out of `totalPages`. */
  method RenderPagination(currentPage: int, totalPages: nat) returns (c: Controls)
    ensures c.Shown? <==> totalPages > 1
    ensures c.Shown? ==> (c.prevDisabled <==> currentPage == 1) && c.prevTarget == currentPage - 1
    ensures c.Shown? ==> (c.nextDisabled <==> currentPage == totalPages) && c.nextTarget == currentPage + 1
    ensures c.Shown? ==> |c.buttons| == totalPages
    ensures c.Shown? ==> forall i :: 0 <= i < |c.buttons| ==> c.buttons[i].number == i + 1
    ensures c.Shown? ==> forall i :: 0 <= i < |c.buttons| ==> (c.buttons[i].active <==> i + 1 == currentPage)
    ensures c.Shown? ==> forall i, j :: 0 <= i < j < |c.buttons| ==> !(c.buttons[i].active && c.buttons[j].active)
    ensures c.Shown? ==> ((exists i :: 0 <= i < |c.buttons| && c.buttons[i].active) <==> 1 <= currentPage <= totalPages)
  {
    if totalPages <= 1 {
      return Hidden;
    }
    var prevDisabled := currentPage == 1;
    var buttons: seq<PageButton> := [];
    var i := 1;
    while i <= totalPages
      invariant 1 <= i <= totalPages + 1
      invariant |buttons| == i - 1
      invariant forall j :: 0 <= j < |buttons| ==> buttons[j] == PageButton(j + 1, j + 1 == currentPage)
    {
      buttons := buttons + [PageButton(i, i == currentPage)];
      i := i + 1;
    }
    var nextDisabled := currentPage == totalPages;
    if 1 <= currentPage <= totalPages {
      assert buttons[currentPage - 1].active;
    }
    c := Shown(prevDisabled, currentPage - 1, buttons, nextDisabled, currentPage + 1);
  }

  /** Every row on a page of the filtered list is a fetched item that matches. */
  lemma PageOfFilterMatches(items: seq<Item>, search: string, page: int)
    ensures forall x :: x in PageSlice(Filter(items, search), page) ==> x in items && Matches(x, search)
  {
    var filtered := Filter(items, search);
    var start := (page - 1) * ItemsPerPage;
    var from, to := SliceIndex(start, |filtered|), SliceIndex(start + ItemsPerPage, |filtered|);
    assert PageSlice(filtered, page) == [] || PageSlice(filtered, page) == filtered[from..to];
  }

  /** The filtered list is empty exactly when no fetched item matches. */
  lemma FilterEmptyIff(items: seq<Item>, search: string)
    ensures Filter(items, search) == [] <==> forall x :: x in items ==> !Matches(x, search)
  {
    var filtered := Filter(items, search);
    if filtered != [] {
      assert filtered[0] in filtered;
    }
  }

  /**
   * What `loadItems(page)` shows for the fetched `items` and the raw text of
   * the search box: the rows of the page, the pagination bar, and whether
   * the "No items match your search" alert appears.
   */
  method LoadItems(items: seq<Item>, rawSearch: string, page: int)
    returns (rows: seq<Item>, controls: Controls, noMatchAlert: bool)
    ensures |rows| <= ItemsPerPage
    ensures forall x :: x in rows ==> x in items && Matches(x, SearchTerm(rawSearch))
    ensures SearchTerm(rawSearch) == "" ==> rows == PageSlice(items, page)
    ensures noMatchAlert <==> SearchTerm(rawSearch) != "" && forall x :: x in items ==> !Matches(x, SearchTerm(rawSearch))
    ensures rows == PageSlice(Filter(items, SearchTerm(rawSearch)), page)
    ensures controls.Shown? <==> |Filter(items, SearchTerm(rawSearch))| > ItemsPerPage
    ensures controls.Shown? ==> |controls.buttons| == TotalPages(|Filter(items, SearchTerm(rawSearch))|)
    ensures controls.Shown? ==> (controls.prevDisabled <==> page == 1)
    ensures controls.Shown? ==> (controls.nextDisabled <==> page == TotalPages(|Filter(items, SearchTerm(rawSearch))|))
    ensures controls.Shown? ==> controls.prevTarget == page - 1 && controls.nextTarget == page + 1
    ensures controls.Shown? ==> forall i :: 0 <= i < |controls.buttons| ==> controls.buttons[i] == PageButton(i + 1, i + 1 == page)
  {
    var search := SearchTerm(rawSearch);
    var filtered := Filter(items, search);
    var totalPages := TotalPages(|filtered|);
    rows := PageSlice(filtered, page);
    controls := RenderPagination(page, totalPages);
    noMatchAlert := |filtered| == 0 && search != "";
    PageOfFilterMatches(items, search, page);
    FilterEmptyIff(items, search);
    if search == "" {
      FilterEmptySearch(items);
    }
  }

  // ---------------------------------------------------------- find by name

  /** `xs.find(p)`: the first element satisfying `p`, if any. */
  function Find<T>(xs: seq<T>, p: T -> bool): (r: Option<T>)
    ensures r.None? <==> forall i :: 0 <= i < |xs| ==> !p(xs[i])
    ensures r.Some? ==> r.value in xs && p(r.value)
  {
    if xs == [] then None
    else if p(xs[0]) then Some(xs[0])
    else Find(xs[1..], p)
  }

  /** What `find` returns is the element at the first index where `p` holds. */
  lemma {:induction false} FindFirst<T>(xs: seq<T>, p: T -> bool, i: nat)
    requires i < |xs| && p(xs[i])
    requires forall j :: 0 <= j < i ==> !p(xs[j])
    ensures Find(xs, p) == Some(xs[i])
  {
    if i > 0 {
      FindFirst(xs[1..], p, i - 1);
    }
  }

  /** `items.find(i => i.name === itemName)`. */
  function FindByName(items: seq<Item>, itemName: string): (r: Option<Item>)
    ensures r.None? <==> forall i :: 0 <= i < |items| ==> items[i].name != Some(itemName)
    ensures r.Some? ==> r.value in items && r.value.name == Some(itemName)
  {
    Find(items, (it: Item) => it.name == Some(itemName))
  }

  /** With duplicate names, the lookup picks the first row in list order. */
  lemma FindByNameFirst(items: seq<Item>, itemName: string, i: nat)
    requires i < |items| && items[i].name == Some(itemName)
    requires forall j :: 0 <= j < i ==> items[j].name != Some(itemName)
    ensures FindByName(items, itemName) == Some(items[i])
  {
    FindFirst(items, (it: Item) => it.name == Some(itemName), i);
  }

  // ------------------------------------------------- the row action buttons

  /**
   * A name that reaches the handler unchanged through `onclick="f('${name}')"`:
   * an apostrophe or a backslash changes the string literal, a double quote
   * ends the attribute, `&` starts a character reference and a line break
   * ends the literal.
   */
  predicate Verbatim(name: string) {
    forall i :: 0 <= i < |name| ==> name[i] !in {'\'', '"', '\\', '&', '\n', '\r'}
  }

  /**
   * The name a row's Assign or Return handler receives from `'${item.name}'`:
   * a NULL name prints as "null".
   */
  function NameInButton(name: Option<string>): (text: string)
    ensures name.Some? && Verbatim(name.value) ==> text == name.value
    ensures name.None? ==> text == "null"
  {
    match name
    case Some(n) => n
    case None => "null"
  }

  /** The item a row's button acts on, as written: the first item named as the button says. */
  function ActionTargetAsWritten(items: seq<Item>, row: Item): Option<Item> {
    FindByName(items, NameInButton(row.name))
  }

  /**
   * A named row's button finds an item of that name, and the row itself when
   * no other row shares the name.
   */
  lemma NamedRowFindsNamesake(items: seq<Item>, row: Item)
    requires row in items && row.name.Some? && Verbatim(row.name.value)
    ensures ActionTargetAsWritten(items, row).Some?
    ensures ActionTargetAsWritten(items, row).value.name == row.name
    ensures (forall i, j :: 0 <= i < j < |items| && items[i].name == items[j].name ==> items[i].name.None?)
            ==> ActionTargetAsWritten(items, row) == Some(row)
  {
    var k :| 0 <= k < |items| && items[k] == row;
    if forall i, j :: 0 <= i < j < |items| && items[i].name == items[j].name ==> items[i].name.None? {
      FindByNameFirst(items, row.name.value, k);
    }
  }

  /**
   * The button of a row without a name looks up the text "null", so it acts
   * on the first item literally named "null", if there is one.
   */
  lemma NamelessRowLooksUpNull(items: seq<Item>, row: Item)
    requires row.name.None?
    ensures ActionTargetAsWritten(items, row) == FindByName(items, "null")
  {
  }

  /**
   * A row without a name, which assigning an unknown id creates, can be
   * neither returned nor assigned from its button: the lookup finds nothing.
   */
  lemma NamelessRowNotFound(items: seq<Item>, row: Item)
    requires row in items && row.name.None?
    requires forall i :: 0 <= i < |items| ==> items[i].name != Some("null")
    ensures ActionTargetAsWritten(items, row) == None
  {
  }

  /** The list right after `assign {itemId: "A1", user: "Bob"}` on an empty table. */
  lemma NamelessRowExample()
    ensures var row := Item("A1", None, None, Some("Bob"), Some("2024-01-01T00:00:00.000Z"));
      ActionTargetAsWritten([row], row) == None
  {
  }

  /** `items.find(i => i.id === itemId)`. */
  function FindById(items: seq<Item>, itemId: string): (r: Option<Item>)
    ensures r.None? <==> forall i :: 0 <= i < |items| ==> items[i].id != itemId
    ensures r.Some? ==> r.value in items && r.value.id == itemId
  {
    Find(items, (it: Item) => it.id == itemId)
  }

  /** The corrected lookup: the button carries the row's id, the primary key. */
  function ActionTarget(items: seq<Item>, row: Item): Option<Item> {
    FindById(items, row.id)
  }

  /** Every row's button acts on that very row, named or not. */
  lemma ActionTargetFindsRow(items: seq<Item>, row: Item)
    requires DistinctIds(items) && row in items
    ensures ActionTarget(items, row) == Some(row)
  {
    var k :| 0 <= k < |items| && items[k] == row;
    FindFirst(items, (it: Item) => it.id == row.id, k);
  }

}
