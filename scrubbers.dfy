/** The listing filters: restrict_menu_items (navigation menus),
    restrict_recent_items (the recent page/post updates list) and the
    decision part of strip_hard_links (list items linking to hidden posts in a
    rendered body). Markup is modelled by the items it is made of. */
module Scrubbers {
  import opened PostMeta
  import opened Seqs
  import opened Access

  // ---------------------------------------------------------------------------
  // restrict_menu_items

  /** An entry of the 'main-nav' menu: its menu-item ID and the post it links
      to (object_id; 0 or less for a link that is not a post). */
  datatype MenuItem = MenuItem(id: int, objectId: PostId)

  /** The menu-item IDs whose `<li id="menu-item-ID">` the handler cuts out of
      the rendered items. */
  function HiddenMenuIds(store: Store, a: Actor, menu: seq<MenuItem>): (cut: set<int>)
    ensures (forall k :: 0 <= k < |menu| ==> menu[k].objectId <= 0) ==> cut == {}
  {
    if menu == [] then {}
    else
      var last := menu[|menu| - 1];
      HiddenMenuIds(store, a, menu[..|menu| - 1])
        + (if last.objectId > 0 && HiddenFrom(store, last.objectId, a) then {last.id} else {})
  }

  /** An ID is cut exactly when some main-nav entry with that ID links to a
      post hidden from the user. */
  lemma {:induction false} HiddenMenuIdsIff(store: Store, a: Actor, menu: seq<MenuItem>, id: int)
    ensures id in HiddenMenuIds(store, a, menu)
            <==> exists k :: 0 <= k < |menu| && menu[k].id == id && menu[k].objectId > 0
                             && HiddenFrom(store, menu[k].objectId, a)
  {
    if menu != [] {
      var init := menu[..|menu| - 1];
      HiddenMenuIdsIff(store, a, init, id);
      if exists k :: 0 <= k < |init| && init[k].id == id && init[k].objectId > 0
                     && HiddenFrom(store, init[k].objectId, a) {
        var k :| 0 <= k < |init| && init[k].id == id && init[k].objectId > 0
                 && HiddenFrom(store, init[k].objectId, a);
        assert menu[k] == init[k];
      }
    }
  }

  /** restrict_menu_items($items, $args). `items` are the menu-item IDs of the
      rendered `<li>` entries, in order; `menu` is wp_get_nav_menu_items('main-nav').
      A privileged user gets the items unchanged; for anyone else every entry
      whose ID belongs to a main-nav entry linking to a hidden post is removed,
      and all others are kept in order. */
  method RestrictMenuItems(items: seq<int>, menu: seq<MenuItem>, store: Store, a: Actor)
    returns (out: seq<int>)
    ensures a.privileged ==> out == items
    ensures !a.privileged ==> out == FilterOut(items, HiddenMenuIds(store, a, menu))
  {
    if a.privileged {
      return items;
    }
    out := items;
    var i := 0;
    assert FilterOut(items, {}) == items by { FilterOutNothing(items); }
    while i < |menu|
      invariant 0 <= i <= |menu|
      invariant out == FilterOut(items, HiddenMenuIds(store, a, menu[..i]))
    {
      var menuItem := menu[i];
      ghost var before := HiddenMenuIds(store, a, menu[..i]);
      assert menu[..i + 1][..i] == menu[..i];
      assert HiddenMenuIds(store, a, menu[..i + 1])
          == before + (if menuItem.objectId > 0 && HiddenFrom(store, menuItem.objectId, a)
                       then {menuItem.id} else {});
      if menuItem.objectId > 0 {
        var m := Lookup(store, menuItem.objectId);
        if FlagOf(m) == 1 && |RolesOf(m)| > 0 {
          var userCanRoles := FilterCan(Unique(RolesOf(m)), a);
          if |userCanRoles| == 0 {
            assert HiddenFrom(store, menuItem.objectId, a);
            FilterOutTwice(items, before, {menuItem.id});
            out := FilterOut(out, {menuItem.id});
            assert out == FilterOut(items, HiddenMenuIds(store, a, menu[..i + 1]));
          } else {
            assert HiddenMenuIds(store, a, menu[..i + 1]) == before;
          }
        } else {
          assert HiddenMenuIds(store, a, menu[..i + 1]) == before;
        }
      } else {
        assert HiddenMenuIds(store, a, menu[..i + 1]) == before;
      }
      i := i + 1;
    }
    assert menu[..|menu|] == menu;
  }

  lemma {:induction false} FilterOutNothing(s: seq<int>)
    ensures FilterOut(s, {}) == s
  {
    if s != [] {
      FilterOutNothing(s[1..]);
    }
  }

  // ---------------------------------------------------------------------------
  // restrict_recent_items

  /** The inner loop over the selected roles: it returns as soon as the user
      can one of them or is privileged. */
  function SelectedRolesAdmit(selected: seq<Role>, a: Actor): (admit: bool)
    ensures admit ==> |selected| > 0
    ensures admit && !a.privileged ==> exists r :: r in selected && Can(a, r)
  {
    if selected == [] then false
    else Can(a, selected[0]) || a.privileged || SelectedRolesAdmit(selected[1..], a)
  }

  lemma {:induction false} SelectedRolesAdmitIff(selected: seq<Role>, a: Actor)
    ensures SelectedRolesAdmit(selected, a)
            <==> |selected| > 0 && (a.privileged || exists r :: r in selected && Can(a, r))
  {
    if selected != [] {
      SelectedRolesAdmitIff(selected[1..], a);
      assert forall r :: r in selected <==> r == selected[0] || r in selected[1..];
    }
  }

  /** The loop of restrict_recent_items as written, from index k on. `kept`
      are the IDs before k still in the array; `removed` records whether
      $updatedArray has been assigned. None is the null the function returns
      when $updatedArray was never assigned. */
  function RecentLoop(items: seq<PostId>, k: nat, kept: seq<PostId>, removed: bool,
                      store: Store, a: Actor): (r: Option<seq<PostId>>)
    requires k <= |items|
    ensures r.None? ==> !removed
    ensures r.Some? ==> forall x :: x in r.value ==> x in kept || x in items[k..]
    ensures (forall j :: k <= j < |items| ==> !Restricted(Lookup(store, items[j])))
            ==> r == (if removed then Some(kept + items[k..]) else None)
    decreases |items| - k
  {
    if k == |items| then
      assert kept + items[k..] == kept;
      if removed then Some(kept) else None
    else
      var m := Lookup(store, items[k]);
      if FlagOf(m) == 1 && |RolesOf(m)| > 0 then
        if SelectedRolesAdmit(RolesOf(m), a) then Some(kept + items[k..])
        else RecentLoop(items, k + 1, kept, true, store, a)
      else
        assert kept + [items[k]] + items[k + 1..] == kept + items[k..];
        RecentLoop(items, k + 1, kept + [items[k]], removed, store, a)
  }

  /** restrict_recent_items as written: it returns $updatedArray, which is
      only assigned once an item has been removed, and it returns the array as
      it stands at the first restricted item the user may see. */
  function RecentItemsAsWritten(items: seq<PostId>, store: Store, a: Actor): (r: Option<seq<PostId>>)
    ensures r.Some? ==> forall x :: x in r.value ==> x in items
    ensures (forall j :: 0 <= j < |items| ==> !Restricted(Lookup(store, items[j]))) ==> r == None
  {
    RecentLoop(items, 0, [], false, store, a)
  }

  /** As written, a list with no restricted item comes back as null. */
  lemma RecentItemsAsWrittenDropsUnrestrictedList()
    ensures RecentItemsAsWritten([7], map[], Actor([], false)) == None
  {
  }

  /** As written, once a restricted item the user may see is met, a later
      item restricted to a role the user lacks is returned as well. */
  lemma RecentItemsAsWrittenLeaksAfterVisibleItem()
    ensures var store := map[1 := Meta(Some(1), Some(["member"]), None),
                             2 := Meta(Some(1), Some(["staff"]), None)];
            var a := Actor(["member"], false);
            && HiddenFrom(store, 2, a)
            && RecentItemsAsWritten([1, 2], store, a) == Some([1, 2])
  {
    var store := map[1 := Meta(Some(1), Some(["member"]), None),
                     2 := Meta(Some(1), Some(["staff"]), None)];
    var a := Actor(["member"], false);
    assert Lookup(store, 1) == Meta(Some(1), Some(["member"]), None);
    assert Lookup(store, 2) == Meta(Some(1), Some(["staff"]), None);
    assert Unique(["staff"]) == ["staff"];
    assert FilterCan(Unique(["staff"]), a) == [];
    assert Unique(["member"]) == ["member"];
    assert SelectedRolesAdmit(["member"], a);
    assert [1, 2][0..] == [1, 2];
    assert HiddenFrom(store, 2, a);
    var items: seq<PostId> := [1, 2];
    assert items[0] == 1;
    assert FlagOf(Lookup(store, items[0])) == 1;
    assert RolesOf(Lookup(store, items[0])) == ["member"];
    assert [] + items[0..] == items;
    assert RecentLoop(items, 0, [], false, store, a) == Some([1, 2]);
  }

  /** Whether the recent-items list shows the post: the user is privileged, or
      the post is not hidden from them. */
  predicate RecentVisible(store: Store, a: Actor, id: PostId)
  {
    a.privileged || !HiddenFrom(store, id, a)
  }

  /** The items a user may see, in order. */
  function VisibleRecent(items: seq<PostId>, store: Store, a: Actor): (r: seq<PostId>)
    ensures forall x :: x in r <==> x in items && RecentVisible(store, a, x)
    ensures |r| <= |items|
  {
    if items == [] then []
    else
      var init := VisibleRecent(items[..|items| - 1], store, a);
      var id := items[|items| - 1];
      assert forall x :: x in items <==> x in items[..|items| - 1] || x == id;
      if RecentVisible(store, a, id) then init + [id] else init
  }

  /** restrict_recent_items as intended: every item restricted to roles the
      user can none of is removed, unless the user is privileged, and the
      list (possibly unchanged) is always returned. */
  method RestrictRecentItems(items: seq<PostId>, store: Store, a: Actor) returns (out: seq<PostId>)
    ensures out == VisibleRecent(items, store, a)
  {
    out := [];
    var i := 0;
    while i < |items|
      invariant 0 <= i <= |items|
      invariant out == VisibleRecent(items[..i], store, a)
    {
      var postId := items[i];
      assert items[..i + 1][..i] == items[..i];
      var m := Lookup(store, postId);
      var keep := true;
      if FlagOf(m) == 1 && |RolesOf(m)| > 0 {
        SelectedRolesAdmitIff(RolesOf(m), a);
        HiddenFromIff(store, postId, a);
        keep := SelectedRolesAdmit(RolesOf(m), a);
      }
      if keep {
        out := out + [postId];
      }
      i := i + 1;
    }
    assert items[..|items|] == items;
  }

  /** The two versions agree whenever the written loop neither runs off the
      end without removing anything nor meets a restricted item the user may
      see: then it returns the same list as the corrected one. */
  lemma {:induction false} RecentLoopMatchesVisible(items: seq<PostId>, k: nat, kept: seq<PostId>,
                                                    removed: bool, store: Store, a: Actor)
    requires k <= |items|
    requires kept == VisibleRecent(items[..k], store, a)
    requires forall j :: k <= j < |items| ==> !(Restricted(Lookup(store, items[j]))
                                                && SelectedRolesAdmit(RolesOf(Lookup(store, items[j])), a))
    requires removed || exists j :: k <= j < |items| && Restricted(Lookup(store, items[j]))
    ensures RecentLoop(items, k, kept, removed, store, a) == Some(VisibleRecent(items, store, a))
    decreases |items| - k
  {
    if k == |items| {
      assert items[..k] == items;
    } else {
      var id := items[k];
      RecentStep(items, k, store, a);
      if Restricted(Lookup(store, id)) {
        RecentLoopMatchesVisible(items, k + 1, kept, true, store, a);
      } else {
        RecentLoopMatchesVisible(items, k + 1, kept + [id], removed, store, a);
      }
    }
  }

  /** One step of the written loop, at an item that is not a restricted one
      the user may see: it is kept exactly when it is not restricted. */
  lemma RecentStep(items: seq<PostId>, k: nat, store: Store, a: Actor)
    requires k < |items|
    requires !(Restricted(Lookup(store, items[k])) && SelectedRolesAdmit(RolesOf(Lookup(store, items[k])), a))
    ensures VisibleRecent(items[..k + 1], store, a)
            == VisibleRecent(items[..k], store, a)
               + (if Restricted(Lookup(store, items[k])) then [] else [items[k]])
  {
    var id := items[k];
    var m := Lookup(store, id);
    assert items[..k + 1][..k] == items[..k];
    assert items[..k + 1][k] == id;
    SelectedRolesAdmitIff(RolesOf(m), a);
    HiddenFromIff(store, id, a);
    assert RecentVisible(store, a, id) <==> !Restricted(m);
  }

  /** Outside the two cases the findings describe, the written function
      returns the corrected list. */
  lemma RecentItemsAsWrittenOtherwiseCorrect(items: seq<PostId>, store: Store, a: Actor)
    requires forall j :: 0 <= j < |items| ==> !(Restricted(Lookup(store, items[j]))
                                                && SelectedRolesAdmit(RolesOf(Lookup(store, items[j])), a))
    requires exists j :: 0 <= j < |items| && Restricted(Lookup(store, items[j]))
    ensures RecentItemsAsWritten(items, store, a) == Some(VisibleRecent(items, store, a))
  {
    assert items[..0] == [];
    RecentLoopMatchesVisible(items, 0, [], false, store, a);
  }

  // ---------------------------------------------------------------------------
  // strip_hard_links

  /** An anchor in the rendered body: its href attribute, if any. */
  datatype Anchor = Anchor(href: Option<string>)

  /** A parent of anchors in the rendered body: a list item, whose anchor
      children can take it out of the body, or any other element. */
  datatype Block = ListItem(links: seq<Anchor>) | OtherElement(links: seq<Anchor>)

  /** The per-anchor decision: it has an href that url_to_postid resolves to
      a positive post ID, and that post is hidden from the user. */
  predicate LinksToHidden(x: Anchor, urlToPostId: string -> PostId, store: Store, a: Actor)
  {
    x.href.Some? && urlToPostId(x.href.value) > 0 && HiddenFrom(store, urlToPostId(x.href.value), a)
  }

  /** Only an enclosing `<li>` is removed, and only when one of its own anchors
      links to a hidden post. */
  predicate Removed(b: Block, urlToPostId: string -> PostId, store: Store, a: Actor)
  {
    b.ListItem? && exists x :: x in b.links && LinksToHidden(x, urlToPostId, store, a)
  }

  /** strip_hard_links($content) as intended, on the body's anchor parents
      in order. A privileged user gets the body unchanged; otherwise exactly
      the removed list items go, and every other element, anchors included,
      stays. */
  function StripHardLinks(body: seq<Block>, urlToPostId: string -> PostId, store: Store, a: Actor)
    : (r: seq<Block>)
    ensures a.privileged ==> r == body
    ensures forall b :: b in r <==> b in body && (a.privileged || !Removed(b, urlToPostId, store, a))
    ensures forall b :: b in body && b.OtherElement? ==> b in r
    ensures |r| <= |body|
  {
    if a.privileged || body == [] then body
    else
      var rest := StripHardLinks(body[1..], urlToPostId, store, a);
      assert forall b :: b in body <==> b == body[0] || b in body[1..];
      if Removed(body[0], urlToPostId, store, a) then rest else [body[0]] + rest
  }

  // The loop as written walks getElementsByTagName('a'), a live list: each
  // step takes the anchor at the next index of the document as it stands,
  // so removing an <li> shifts the later anchors down past the index.

  /** The number of anchors in the body. */
  function AnchorCount(body: seq<Block>): nat
  {
    if body == [] then 0 else |body[0].links| + AnchorCount(body[1..])
  }

  lemma {:induction false} AnchorCountConcat(s: seq<Block>, t: seq<Block>)
    ensures AnchorCount(s + t) == AnchorCount(s) + AnchorCount(t)
  {
    if s != [] {
      assert (s + t)[0] == s[0];
      assert (s + t)[1..] == s[1..] + t;
      AnchorCountConcat(s[1..], t);
    } else {
      assert s + t == t;
    }
  }

  /** Taking a block out of the body never adds anchors. */
  lemma AnchorCountRemove(body: seq<Block>, b: nat)
    requires b < |body|
    ensures AnchorCount(body[..b] + body[b + 1..]) <= AnchorCount(body)
  {
    assert body == body[..b] + ([body[b]] + body[b + 1..]);
    AnchorCountConcat(body[..b], [body[b]] + body[b + 1..]);
    AnchorCountConcat([body[b]], body[b + 1..]);
    AnchorCountConcat(body[..b], body[b + 1..]);
  }

  /** The index of the block holding the anchor at index i in document
      order, together with that anchor. */
  function AnchorAt(body: seq<Block>, i: nat): (r: (nat, Anchor))
    requires i < AnchorCount(body)
    ensures r.0 < |body| && r.1 in body[r.0].links
  {
    if i < |body[0].links| then (0, body[0].links[i])
    else
      var r := AnchorAt(body[1..], i - |body[0].links|);
      (r.0 + 1, r.1)
  }

  /** The foreach loop from index i on, over the body as it stands. */
  function StripLive(body: seq<Block>, i: nat, urlToPostId: string -> PostId, store: Store, a: Actor)
    : (r: seq<Block>)
    ensures forall b :: b in r ==> b in body
    ensures forall b :: b in body && !Removed(b, urlToPostId, store, a) ==> b in r
    decreases AnchorCount(body) - i
  {
    if i >= AnchorCount(body) then body
    else
      var (k, x) := AnchorAt(body, i);
      if LinksToHidden(x, urlToPostId, store, a) && body[k].ListItem? then
        AnchorCountRemove(body, k);
        var rest := body[..k] + body[k + 1..];
        assert forall b :: b in body && b != body[k] ==> b in rest;
        assert forall b :: b in rest ==> b in body;
        StripLive(rest, i + 1, urlToPostId, store, a)
      else StripLive(body, i + 1, urlToPostId, store, a)
  }

  /** strip_hard_links as written: it never removes an element whose anchors
      all link to visible posts, but it can keep a list item it should have
      removed. */
  function StripHardLinksAsWritten(body: seq<Block>, urlToPostId: string -> PostId, store: Store, a: Actor)
    : (r: seq<Block>)
    ensures a.privileged ==> r == body
    ensures forall b :: b in r ==> b in body
    ensures forall b :: b in body && !Removed(b, urlToPostId, store, a) ==> b in r
  {
    if a.privileged then body else StripLive(body, 0, urlToPostId, store, a)
  }

  /** As written, of two adjacent list items each linking to a post
      restricted to "staff", an anonymous reader has only the first removed:
      the second item's anchor moves into the index already visited. The
      corrected filter removes both. */
  lemma StripHardLinksAsWrittenSkipsNextItem(url: string -> PostId, store: Store)
    requires url("h1") == 1 && url("h2") == 2
    requires Lookup(store, 1) == Meta(Some(1), Some(["staff"]), None)
    requires Lookup(store, 2) == Meta(Some(1), Some(["staff"]), None)
    ensures var second := ListItem([Anchor(Some("h2"))]);
            var body := [ListItem([Anchor(Some("h1"))]), second];
            && Removed(second, url, store, Actor([], false))
            && StripHardLinksAsWritten(body, url, store, Actor([], false)) == [second]
            && StripHardLinks(body, url, store, Actor([], false)) == []
  {
    var a := Actor([], false);
    var first := ListItem([Anchor(Some("h1"))]);
    var second := ListItem([Anchor(Some("h2"))]);
    var body := [first, second];
    StaffOnlyHidden(url, store, "h1", 1);
    StaffOnlyHidden(url, store, "h2", 2);
    assert Removed(first, url, store, a) by {
      assert Anchor(Some("h1")) in first.links;
    }
    assert Removed(second, url, store, a) by {
      assert Anchor(Some("h2")) in second.links;
    }
    assert body[1..] == [second];
    assert AnchorAt(body, 0) == (0, Anchor(Some("h1")));
    assert body[..0] + body[0 + 1..] == [second];
    assert StripLive([second], 1, url, store, a) == [second];
  }

  /** A link resolving to a post restricted to "staff" is hidden from a reader
      with no roles. */
  lemma StaffOnlyHidden(url: string -> PostId, store: Store, h: string, id: PostId)
    requires url(h) == id && id > 0
    requires Lookup(store, id) == Meta(Some(1), Some(["staff"]), None)
    ensures LinksToHidden(Anchor(Some(h)), url, store, Actor([], false))
  {
    UniqueOfDistinct(["staff"]);
    assert FilterCan(["staff"], Actor([], false)) == [];
  }
}
