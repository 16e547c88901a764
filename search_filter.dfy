/** restrict_search_results: before a front-end search runs, exclude every
    post the current user may not see, by ID and by parent ID. */
module SearchFilter {
  import opened PostMeta
  import opened Seqs
  import opened Access

  const PostNotIn: string := "post__not_in"
  const PostParentNotIn: string := "post_parent__not_in"

  /** The WP_Query being prepared: whether it is a search, and its list-valued
      query variables. */
  class Query {
    const isSearch: bool
    var vars: map<string, seq<PostId>>

    constructor (isSearch: bool, vars: map<string, seq<PostId>>)
      ensures this.isSearch == isSearch && this.vars == vars
    {
      this.isSearch := isSearch;
      this.vars := vars;
    }

    /** $query->set(key, value). */
    method Set(key: string, value: seq<PostId>)
      modifies this
      ensures vars == old(vars)[key := value]
    {
      vars := vars[key := value];
    }
  }

  /** The IDs the loop appends to $restrict, in order: every row with a
      positive post ID whose post is hidden from the user. */
  function HiddenPosts(store: Store, a: Actor, rows: seq<PostId>): (r: seq<PostId>)
    ensures forall x :: x in r <==> x in rows && x > 0 && HiddenFrom(store, x, a)
  {
    if rows == [] then []
    else
      var init := HiddenPosts(store, a, rows[..|rows| - 1]);
      var id := rows[|rows| - 1];
      assert forall x :: x in rows <==> x in rows[..|rows| - 1] || x == id;
      if id > 0 && HiddenFrom(store, id, a) then init + [id] else init
  }

  /** array_unique($restrict), the list written into both query variables. */
  function ExclusionList(store: Store, a: Actor, rows: seq<PostId>): (r: seq<PostId>)
    ensures NoDuplicates(r)
    ensures forall x :: x in r ==> x in rows && x > 0 && HiddenFrom(store, x, a)
  {
    Unique(HiddenPosts(store, a, rows))
  }

  /** The exclusion list holds each hidden post of the rows exactly once, and
      nothing else. */
  lemma ExclusionListExact(store: Store, a: Actor, rows: seq<PostId>)
    ensures NoDuplicates(ExclusionList(store, a, rows))
    ensures forall x :: x in ExclusionList(store, a, rows)
                        <==> x in rows && x > 0 && Restricted(Lookup(store, x))
                             && forall r :: r in RolesOf(Lookup(store, x)) ==> !Can(a, r)
  {
    forall x {
      HiddenFromIff(store, x, a);
    }
  }

  /** Whether the handler rewrites the query: a non-privileged user, a
      search, and a request that is not for an admin screen. */
  predicate Filters(isSearch: bool, a: Actor, isAdminScreen: bool)
  {
    !a.privileged && isSearch && !isAdminScreen
  }

  /** restrict_search_results($query). `rows` are the post IDs the SQL query
      returns (posts whose flag row is 1 and that have a roles row);
      `isAdminScreen` is the PHP_SELF test against the admin directory. */
  method RestrictSearchResults(query: Query, store: Store, a: Actor, isAdminScreen: bool, rows: seq<PostId>)
    modifies query
    ensures Filters(query.isSearch, a, isAdminScreen)
            ==> query.vars == old(query.vars)[PostNotIn := ExclusionList(store, a, rows)]
                                             [PostParentNotIn := ExclusionList(store, a, rows)]
    ensures !Filters(query.isSearch, a, isAdminScreen) ==> query.vars == old(query.vars)
  {
    if a.privileged {
      return;
    }
    if query.isSearch && !isAdminScreen {
      var restrict: seq<PostId> := [];
      var i := 0;
      while i < |rows|
        invariant 0 <= i <= |rows|
        invariant restrict == HiddenPosts(store, a, rows[..i])
      {
        var postId := rows[i];
        assert rows[..i + 1][..i] == rows[..i];
        if postId > 0 {
          var m := Lookup(store, postId);
          if FlagOf(m) == 1 && |RolesOf(m)| > 0 {
            var userCanRoles := FilterCan(Unique(RolesOf(m)), a);
            if |userCanRoles| == 0 {
              restrict := restrict + [postId];
            }
          }
        }
        i := i + 1;
      }
      assert rows[..|rows|] == rows;
      query.Set(PostNotIn, Unique(restrict));
      query.Set(PostParentNotIn, Unique(restrict));
    }
  }

  /** A search by a user with no roles excludes every restricted post among
      the rows: no such post can be returned by the filtered query. */
  lemma AnonymousSearchExcludesAllRestricted(store: Store, rows: seq<PostId>, x: PostId)
    requires x in rows && x > 0 && Restricted(Lookup(store, x))
    ensures x in ExclusionList(store, Actor([], false), rows)
  {
    ExclusionListExact(store, Actor([], false), rows);
  }
}
