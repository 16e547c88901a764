/** The read-time access rule of restrict_content_page: which record governs a
    post, whether the current user may see it, and what a denial renders. Also
    the shared rule by which the listing and search filters hide a post. */
module Access {
  import opened PostMeta
  import opened Seqs

  /** The current user: the roles assigned to them (`$user->roles`) and whether
      current_user_can('administrator') || current_user_can('editor') holds.
      WordPress can grant the latter without either role being assigned
      (a network super admin), so the two are independent here. */
  datatype Actor = Actor(roles: seq<Role>, privileged: bool)

  /** An actor WordPress can produce: holding the administrator or editor
      role makes the user privileged (the converse need not hold). */
  predicate ConsistentActor(a: Actor)
  {
    ("administrator" in a.roles || "editor" in a.roles) ==> a.privileged
  }

  /** current_user_can(role) for a role slug. */
  predicate Can(a: Actor, r: Role)
  {
    r in a.roles
  }

  /** `restrict_access == 1 && !empty(select_role)`. */
  predicate Restricted(m: Meta)
  {
    FlagOf(m) == 1 && |RolesOf(m)| > 0
  }

  // ---------------------------------------------------------------------------
  // Which record governs a post

  /** The record restrict_content_page reads for `post`, whose parent is
      `parent` (0 when it has none): the parent's whole record when the
      parent's flag is above 0, otherwise the post's own. */
  function EffectiveMeta(store: Store, post: PostId, parent: PostId): (m: Meta)
    ensures m == Lookup(store, parent) || m == Lookup(store, post)
    ensures parent == 0 ==> m == Lookup(store, post)
    ensures m != Lookup(store, post) ==> FlagOf(m) > 0
  {
    if parent != 0 && FlagOf(Lookup(store, parent)) > 0 then Lookup(store, parent)
    else Lookup(store, post)
  }

  /** A flagged parent decides alone: whatever the child's own record holds,
      the parent's flag, roles and redirect are the ones read. */
  lemma ParentOverridesChild(store: Store, post: PostId, parent: PostId, childMeta: Meta)
    requires parent != 0 && parent != post
    requires FlagOf(Lookup(store, parent)) > 0
    ensures EffectiveMeta(store, post, parent) == Lookup(store, parent)
    ensures EffectiveMeta(store[post := childMeta], post, parent) == Lookup(store, parent)
  {
  }

  /** With no flagged parent the post's own record is read, whatever the
      parent's roles and redirect are. */
  lemma OwnRecordWithoutFlaggedParent(store: Store, post: PostId, parent: PostId, parentMeta: Meta)
    requires parent != post
    requires parent == 0 || FlagOf(parentMeta) <= 0
    ensures EffectiveMeta(store[parent := parentMeta], post, parent) == Lookup(store, post)
  {
  }

  // ---------------------------------------------------------------------------
  // The decision

  /** The loop over the user's assigned roles (with its early return): it
      admits when some assigned role is selected, or, because the privileged
      test sits inside the loop, when there is at least one assigned role and
      the user is privileged. */
  function AssignedRolesAdmit(userRoles: seq<Role>, selected: seq<Role>, privileged: bool): (admit: bool)
    ensures admit ==> |userRoles| > 0
    ensures admit && !privileged ==> exists r :: r in userRoles && r in selected
  {
    if userRoles == [] then false
    else userRoles[0] in selected || privileged || AssignedRolesAdmit(userRoles[1..], selected, privileged)
  }

  /** The loop admits exactly when the user has an assigned role and either
      is privileged or shares a role with the selection. */
  lemma {:induction false} AssignedRolesAdmitIff(userRoles: seq<Role>, selected: seq<Role>, privileged: bool)
    ensures AssignedRolesAdmit(userRoles, selected, privileged)
            <==> |userRoles| > 0 && (privileged || exists r :: r in userRoles && r in selected)
  {
    if userRoles != [] {
      AssignedRolesAdmitIff(userRoles[1..], selected, privileged);
      assert forall r :: r in userRoles <==> r == userRoles[0] || r in userRoles[1..];
    }
  }

  /** The two outcomes of the access check. A denial carries the redirect
      that survives validation ("" or an empty() string when there is none). */
  datatype Decision = Allow | Deny(redirect: string)

  /** The redirect read at render time: a non-empty one that fails
      FILTER_VALIDATE_URL is blanked. */
  function SanitizedRedirect(m: Meta, validUrl: string -> bool): (u: string)
    ensures u == RedirectOf(m) || u == ""
    ensures !EmptyString(u) ==> validUrl(u) && u == RedirectOf(m)
    ensures !EmptyString(RedirectOf(m)) && !validUrl(RedirectOf(m)) ==> u == ""
  {
    var u := RedirectOf(m);
    if !EmptyString(u) && !validUrl(u) then "" else u
  }

  /** The access check on the governing record: only a restricted record
      can deny, and a denial carries the sanitized redirect. */
  function Decide(m: Meta, a: Actor, validUrl: string -> bool): (d: Decision)
    ensures d == Allow || d == Deny(SanitizedRedirect(m, validUrl))
    ensures d.Deny? ==> Restricted(m)
    ensures d.Deny? ==> !a.privileged || |a.roles| == 0
  {
    if Restricted(m) && !AssignedRolesAdmit(a.roles, RolesOf(m), a.privileged)
    then Deny(SanitizedRedirect(m, validUrl))
    else Allow
  }

  /** The access rule stated directly: the record is not restricted, or the
      user has an assigned role and is privileged or holds a selected role. */
  predicate Admits(m: Meta, a: Actor)
  {
    !Restricted(m) || (|a.roles| > 0 && (a.privileged || exists r :: r in a.roles && r in RolesOf(m)))
  }

  /** Decide allows exactly what Admits admits, and a denial names the
      sanitized redirect. */
  lemma DecideMatchesAdmits(m: Meta, a: Actor, validUrl: string -> bool)
    ensures Decide(m, a, validUrl) == Allow <==> Admits(m, a)
    ensures Decide(m, a, validUrl) != Allow ==> Decide(m, a, validUrl) == Deny(SanitizedRedirect(m, validUrl))
  {
    AssignedRolesAdmitIff(a.roles, RolesOf(m), a.privileged);
  }

  /** A user with no assigned roles is denied every restricted record, even
      when current_user_can('administrator') holds. */
  lemma NoAssignedRolesDenied(m: Meta, a: Actor, validUrl: string -> bool)
    requires Restricted(m) && a.roles == []
    ensures Decide(m, a, validUrl) == Deny(SanitizedRedirect(m, validUrl))
  {
  }

  /** A consistent actor holding the administrator or editor role is admitted
      to every record. */
  lemma ConsistentStaffAdmitted(m: Meta, a: Actor, validUrl: string -> bool)
    requires ConsistentActor(a)
    requires "administrator" in a.roles || "editor" in a.roles
    ensures Decide(m, a, validUrl) == Allow
  {
    DecideMatchesAdmits(m, a, validUrl);
  }

  // ---------------------------------------------------------------------------
  // What the content filter returns

  /** The content filter either returns a body or ends the request with
      wp_redirect(location, status); exit. */
  datatype Response = Content(body: string) | Redirect(location: string, status: int)

  /** s contains t as a contiguous part. */
  predicate Contains(s: string, t: string)
    decreases |s|
  {
    t <= s || (|s| > 0 && Contains(s[1..], t))
  }

  /** Text put in front keeps every part that was there. */
  lemma {:induction false} ContainsPrepend(p: string, s: string, t: string)
    requires Contains(s, t)
    ensures Contains(p + s, t)
    decreases |p|
  {
    if p == [] {
      assert p + s == s;
    } else {
      ContainsPrepend(p[1..], s, t);
      assert (p + s)[1..] == p[1..] + s;
    }
  }

  const RestrictedHeading: string := "<h2><span>Restricted Content</span></h2>"

  function HomeLink(home: string): string
  {
    "<a href=\"" + home + "\" class=\"btn btn-default\">"
  }

  /** The pieces of the fixed denial fragment around the heading and the
      home link. */
  const FragmentHead: string :=
    "<div class=\"pcr-rpbr_403\">\n<div class=\"pcr-rpbr_403_icon\">\n<i class=\"fa fa-lock\"></i>\n</div>\n<div class=\"pcr-rpbr_403_heading\">\n"
  const FragmentMiddle: string :=
    "\n</div>\n<p> Apologies, you do not have the proper permissions to access this page.</p>\n<div>\n"
  const FragmentTail: string :=
    "\n<i class=\"fa fa-arrow-left\"></i>Back on the home page\n</a>\n</div>\n</div>"

  /** The fixed fragment that replaces the whole body on a denial without a
      redirect. */
  function DeniedFragment(home: string): string
  {
    FragmentHead + (RestrictedHeading + (FragmentMiddle + (HomeLink(home) + FragmentTail)))
  }

  /** The denial fragment shows the "Restricted Content" heading and a link
      back to the home URL. */
  lemma DeniedFragmentShowsNotice(home: string)
    ensures Contains(DeniedFragment(home), RestrictedHeading)
    ensures Contains(DeniedFragment(home), HomeLink(home))
  {
    var link := HomeLink(home) + FragmentTail;
    assert Contains(link, HomeLink(home));
    ContainsPrepend(FragmentMiddle, link, HomeLink(home));
    ContainsPrepend(RestrictedHeading, FragmentMiddle + link, HomeLink(home));
    ContainsPrepend(FragmentHead, RestrictedHeading + (FragmentMiddle + link), HomeLink(home));
    assert Contains(RestrictedHeading + (FragmentMiddle + link), RestrictedHeading);
    ContainsPrepend(FragmentHead, RestrictedHeading + (FragmentMiddle + link), RestrictedHeading);
  }

  /** restrict_content_page: the body for `post` (parent `parent`), from the
      stored records, the current user, the URL validator and the home URL. */
  function RestrictContentPage(store: Store, post: PostId, parent: PostId, a: Actor,
                               content: string, validUrl: string -> bool, home: string): (r: Response)
    ensures r.Content? ==> r.body == content || r.body == DeniedFragment(home)
    ensures r.Redirect? ==> r.status == 302 && r.location == RedirectOf(EffectiveMeta(store, post, parent))
    ensures r != Content(content) ==> Restricted(EffectiveMeta(store, post, parent))
  {
    match Decide(EffectiveMeta(store, post, parent), a, validUrl)
    case Allow => Content(content)
    case Deny(u) => if !EmptyString(u) then Redirect(u, 302) else Content(DeniedFragment(home))
  }

  /** Every outcome of restrict_content_page: the body passes through exactly
      when the governing record admits the user; a denial redirects with 302
      to the stored URL when it is non-empty and valid, and otherwise replaces
      the whole body with the denial fragment. */
  lemma ContentPageOutcome(store: Store, post: PostId, parent: PostId, a: Actor,
                           content: string, validUrl: string -> bool, home: string)
    ensures var m := EffectiveMeta(store, post, parent);
            var r := RestrictContentPage(store, post, parent, a, content, validUrl, home);
            && (Admits(m, a) ==> r == Content(content))
            && (!Admits(m, a) && !EmptyString(RedirectOf(m)) && validUrl(RedirectOf(m))
                ==> r == Redirect(RedirectOf(m), 302))
            && (!Admits(m, a) && (EmptyString(RedirectOf(m)) || !validUrl(RedirectOf(m)))
                ==> r == Content(DeniedFragment(home)))
  {
    var m := EffectiveMeta(store, post, parent);
    DecideMatchesAdmits(m, a, validUrl);
    if !Admits(m, a) {
      var u := SanitizedRedirect(m, validUrl);
      assert Decide(m, a, validUrl) == Deny(u);
      if !EmptyString(RedirectOf(m)) && validUrl(RedirectOf(m)) {
        assert u == RedirectOf(m);
      } else {
        assert EmptyString(u);
      }
    }
  }

  /** A record that is not restricted passes every body through unchanged, for
      every user. */
  lemma UnrestrictedPassesThrough(store: Store, post: PostId, parent: PostId, a: Actor,
                                  content: string, validUrl: string -> bool, home: string)
    requires !Restricted(EffectiveMeta(store, post, parent))
    ensures RestrictContentPage(store, post, parent, a, content, validUrl, home) == Content(content)
  {
  }

  /** A redirect issued by the content filter always names a URL that passed
      validation. */
  lemma RedirectTargetIsValid(store: Store, post: PostId, parent: PostId, a: Actor,
                              content: string, validUrl: string -> bool, home: string)
    ensures var r := RestrictContentPage(store, post, parent, a, content, validUrl, home);
            r.Redirect? ==> r.status == 302 && validUrl(r.location) && !EmptyString(r.location)
  {
  }

  /** A post restricted to "member" with no redirect, read by a user with no
      roles, shows the denial fragment. */
  lemma MemberOnlyPageDeniesAnonymous(store: Store, post: PostId, content: string,
                                      validUrl: string -> bool, home: string)
    requires Lookup(store, post) == Meta(Some(1), Some(["member"]), None)
    ensures RestrictContentPage(store, post, 0, Actor([], false), content, validUrl, home)
            == Content(DeniedFragment(home))
  {
  }

  /** A child with no restriction of its own under a parent restricted to
      "member" is denied to a user who lacks "member". */
  lemma ChildInheritsParentRestriction(store: Store, child: PostId, parent: PostId, a: Actor,
                                       content: string, validUrl: string -> bool, home: string)
    requires parent != 0 && parent != child
    requires Lookup(store, parent) == Meta(Some(1), Some(["member"]), None)
    requires Lookup(store, child) == NoMeta
    requires "member" !in a.roles
    requires !a.privileged
    ensures RestrictContentPage(store, child, parent, a, content, validUrl, home)
            == Content(DeniedFragment(home))
  {
    DecideMatchesAdmits(Lookup(store, parent), a, validUrl);
  }

  // ---------------------------------------------------------------------------
  // The rule the listing and search filters share

  /** array_filter(select_roles, 'current_user_can'): the roles the user can,
      in order and with any repeats kept (the callers apply Unique first). */
  function FilterCan(selected: seq<Role>, a: Actor): (r: seq<Role>)
    ensures forall x :: x in r <==> x in selected && Can(a, x)
  {
    if selected == [] then []
    else if Can(a, selected[0]) then [selected[0]] + FilterCan(selected[1..], a)
    else FilterCan(selected[1..], a)
  }

  /** The test the menu, search and anchor filters make: the post's own record
      (no parent inheritance) has flag 1 and selected roles, and
      count(array_filter(array_unique(roles), 'current_user_can')) is 0. */
  predicate HiddenFrom(store: Store, id: PostId, a: Actor)
    ensures HiddenFrom(store, id, a) ==> Restricted(Lookup(store, id))
  {
    var m := Lookup(store, id);
    FlagOf(m) == 1 && |RolesOf(m)| > 0 && |FilterCan(Unique(RolesOf(m)), a)| == 0
  }

  /** A post is hidden exactly when its record is restricted and the user can
      none of its selected roles. */
  lemma HiddenFromIff(store: Store, id: PostId, a: Actor)
    ensures HiddenFrom(store, id, a)
            <==> Restricted(Lookup(store, id)) && forall r :: r in RolesOf(Lookup(store, id)) ==> !Can(a, r)
  {
    var c := FilterCan(Unique(RolesOf(Lookup(store, id))), a);
    if |c| > 0 {
      assert c[0] in c;
    }
  }

  /** For a post without a flagged parent and a user with at least one
      assigned role, the content filter denies exactly the posts the listing
      filters hide from an unprivileged user; the filters differ only in
      parent inheritance and in the no-assigned-roles case. */
  lemma ContentFilterAgreesWithListings(store: Store, post: PostId, parent: PostId, a: Actor,
                                        validUrl: string -> bool)
    requires parent == 0 || FlagOf(Lookup(store, parent)) <= 0
    requires |a.roles| > 0
    ensures Decide(EffectiveMeta(store, post, parent), a, validUrl) != Allow
            <==> !a.privileged && HiddenFrom(store, post, a)
  {
    DecideMatchesAdmits(Lookup(store, post), a, validUrl);
    HiddenFromIff(store, post, a);
  }
}
