/** dropdown_roles_multi: the role options of the editor's multi-select, with
    WordPress's built-in roles removed and the pre-selected roles listed
    first. */
module RoleDropdown {
  import opened PostMeta
  import opened Seqs

  /** The roles removed from the selectable list. */
  const BuiltInRoles: set<Role> :=
    {"administrator", "editor", "author", "contributor", "subscriber", "app_subscriber", "super_admin"}

  /** One `<option>`: its role and whether it carries selected='selected'. */
  datatype RoleOption = RoleOption(role: Role, selected: bool)

  /** The options the loop appends to $y (want = true) or to $n (want = false),
      in the order of the editable roles. */
  function OptionsOf(editable: seq<Role>, selected: seq<Role>, want: bool): seq<RoleOption>
  {
    if editable == [] then []
    else
      var init := OptionsOf(editable[..|editable| - 1], selected, want);
      var role := editable[|editable| - 1];
      if role !in BuiltInRoles && (role in selected) == want then init + [RoleOption(role, want)] else init
  }

  /** No role is named by two options. */
  predicate DistinctRoles(os: seq<RoleOption>)
  {
    forall i, j :: 0 <= i < j < |os| ==> os[i].role != os[j].role
  }

  /** The echoed list: every pre-selected option, then every other one. */
  function RoleOptions(editable: seq<Role>, selected: seq<Role>): (r: seq<RoleOption>)
    ensures |r| <= |editable|
    ensures NoDuplicates(editable) ==> DistinctRoles(r)
  {
    OptionsSplit(editable, selected);
    OneOptionPerRole(editable, selected);
    OptionsOf(editable, selected, true) + OptionsOf(editable, selected, false)
  }

  /** For distinct editable roles, each half names every role at most once. */
  lemma {:induction false} OptionsOfDistinct(editable: seq<Role>, selected: seq<Role>, want: bool)
    requires NoDuplicates(editable)
    ensures DistinctRoles(OptionsOf(editable, selected, want))
  {
    if editable != [] {
      var init := editable[..|editable| - 1];
      var last := editable[|editable| - 1];
      assert NoDuplicates(init);
      OptionsOfDistinct(init, selected, want);
      OptionsOfExact(init, selected, want);
      var io := OptionsOf(init, selected, want);
      var os := OptionsOf(editable, selected, want);
      forall i, j | 0 <= i < j < |os|
        ensures os[i].role != os[j].role
      {
        if j >= |io| {
          assert os[i] == io[i] && io[i] in io;
          assert io[i].role in init;
          assert os[j].role == last;
        } else {
          assert os[i] == io[i] && os[j] == io[j];
        }
      }
    }
  }

  /** For distinct editable roles, no role is offered twice. */
  lemma OneOptionPerRole(editable: seq<Role>, selected: seq<Role>)
    ensures NoDuplicates(editable)
            ==> DistinctRoles(OptionsOf(editable, selected, true) + OptionsOf(editable, selected, false))
  {
    if !NoDuplicates(editable) {
      return;
    }
    var ys := OptionsOf(editable, selected, true);
    var ns := OptionsOf(editable, selected, false);
    OptionsOfDistinct(editable, selected, true);
    OptionsOfDistinct(editable, selected, false);
    OptionsOfExact(editable, selected, true);
    OptionsOfExact(editable, selected, false);
    var r := ys + ns;
    forall i, j | 0 <= i < j < |r|
      ensures r[i].role != r[j].role
    {
      if j < |ys| {
        assert r[i] == ys[i] && r[j] == ys[j];
      } else if i >= |ys| {
        assert r[i] == ns[i - |ys|] && r[j] == ns[j - |ys|];
      } else {
        assert r[i] == ys[i] && ys[i] in ys;
        assert r[j] == ns[j - |ys|] && ns[j - |ys|] in ns;
        assert ys[i].role in selected;
        assert ns[j - |ys|].role !in selected;
      }
    }
  }

  /** Each editable role goes to at most one of the two lists. */
  lemma {:induction false} OptionsSplit(editable: seq<Role>, selected: seq<Role>)
    ensures |OptionsOf(editable, selected, true)| + |OptionsOf(editable, selected, false)| <= |editable|
  {
    if editable != [] {
      OptionsSplit(editable[..|editable| - 1], selected);
    }
  }

  /** dropdown_roles_multi($selected). `editable` are the keys of
      get_editable_roles() in the order asort leaves them; `selected` is the
      stored role list (a single string is wrapped into a list). */
  method DropdownRolesMulti(editable: seq<Role>, selected: seq<Role>) returns (options: seq<RoleOption>)
    ensures options == RoleOptions(editable, selected)
  {
    var y: seq<RoleOption> := [];
    var n: seq<RoleOption> := [];
    var i := 0;
    while i < |editable|
      invariant 0 <= i <= |editable|
      invariant y == OptionsOf(editable[..i], selected, true)
      invariant n == OptionsOf(editable[..i], selected, false)
    {
      var role := editable[i];
      assert editable[..i + 1][..i] == editable[..i];
      if role !in BuiltInRoles {
        if role in selected {
          y := y + [RoleOption(role, true)];
        } else {
          n := n + [RoleOption(role, false)];
        }
      }
      i := i + 1;
    }
    assert editable[..|editable|] == editable;
    options := y + n;
  }

  /** The options of one kind are exactly the editable, non-built-in roles
      whose membership in the selection is `want`, each marked `want`. */
  lemma {:induction false} OptionsOfExact(editable: seq<Role>, selected: seq<Role>, want: bool)
    ensures forall o :: o in OptionsOf(editable, selected, want)
                        <==> o.selected == want && o.role in editable && o.role !in BuiltInRoles
                             && (o.role in selected) == want
  {
    if editable != [] {
      var init := editable[..|editable| - 1];
      OptionsOfExact(init, selected, want);
      assert forall r :: r in editable <==> r in init || r == editable[|editable| - 1];
    }
  }

  /** No built-in role is offered; every other editable role is offered,
      marked selected exactly when it is in the stored selection; and
      every selected option precedes every unselected one. */
  lemma RoleOptionsProperties(editable: seq<Role>, selected: seq<Role>)
    ensures forall o :: o in RoleOptions(editable, selected)
                        <==> o.role in editable && o.role !in BuiltInRoles && o.selected == (o.role in selected)
    ensures forall i, j :: 0 <= i < j < |RoleOptions(editable, selected)|
                           && RoleOptions(editable, selected)[j].selected
                           ==> RoleOptions(editable, selected)[i].selected
  {
    OptionsOfExact(editable, selected, true);
    OptionsOfExact(editable, selected, false);
    var ys := OptionsOf(editable, selected, true);
    var ns := OptionsOf(editable, selected, false);
    var all := RoleOptions(editable, selected);
    assert forall k :: 0 <= k < |ys| ==> ys[k] in ys;
    assert forall k :: 0 <= k < |ns| ==> ns[k] in ns;
    forall i, j | 0 <= i < j < |all| && all[j].selected
      ensures all[i].selected
    {
      assert all[i] == ys[i];
    }
  }
}
