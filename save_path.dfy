/** The save_post handler register_restrict_role, which writes the three keys
    of a post step by step, and the one-shot redirect_post_location filter
    add_notice_query_var it hooks when the submitted redirect is refused. */
module SavePath {
  import opened PostMeta
  import Access

  /** The fields the edit form posts. `restrictAccess` is None when the
      checkbox is unticked (the field is absent); `selectRole` is empty when
      no role is selected; `redirectUrl` is "" when the field is absent. The
      flag and the redirect are taken as they are after esc_attr. */
  datatype Form = Form(nonce: string, restrictAccess: Option<int>, selectRole: seq<Role>, redirectUrl: string)

  /** What the handler asks the host: whether DOING_AUTOSAVE is set,
      wp_verify_nonce for the plugin's action, and get_permalink(get_the_ID()). */
  datatype SaveEnv = SaveEnv(doingAutosave: bool, verifyNonce: string -> bool, permalink: string)

  /** The guards at the top of the handler: not an autosave, and a non-empty
      nonce that verifies. */
  predicate GuardsPass(form: Form, env: SaveEnv)
  {
    !env.doingAutosave && !EmptyString(form.nonce) && env.verifyNonce(form.nonce)
  }

  /** The flag value written: the submitted value when non-empty, else 0
      (a submitted 0 is empty and writes 0 as well). */
  function SubmittedFlag(form: Form): int
  {
    match form.restrictAccess
    case None => 0
    case Some(v) => v
  }

  /** A non-empty submitted redirect is refused when it fails
      FILTER_VALIDATE_URL or equals the current permalink. */
  predicate RedirectRefused(u: string, validUrl: string -> bool, env: SaveEnv)
  {
    !validUrl(u) || u == env.permalink
  }

  /** Whether the save hooks add_notice_query_var. */
  predicate NoticeRequested(form: Form, validUrl: string -> bool, env: SaveEnv)
  {
    !EmptyString(form.redirectUrl) && RedirectRefused(form.redirectUrl, validUrl, env)
  }

  /** The record a passing save leaves for the post, from the record before. */
  function SavedMeta(m: Meta, form: Form, validUrl: string -> bool, env: SaveEnv): (s: Meta)
    ensures s.restrictAccess.Some?
    ensures s.selectRole.Some? ==> |s.selectRole.value| > 0
    ensures s.redirectUrl.None? || s.redirectUrl == m.redirectUrl || s.redirectUrl == Some(form.redirectUrl)
  {
    Meta(
      Some(SubmittedFlag(form)),
      if |form.selectRole| > 0 then Some(form.selectRole) else None,
      if EmptyString(form.redirectUrl) then None
      else if RedirectRefused(form.redirectUrl, validUrl, env) then m.redirectUrl
      else Some(form.redirectUrl))
  }

  /** The record invariant of every post the plugin has saved: a stored role
      list is never empty, and a stored redirect is non-empty and valid. */
  predicate WellFormed(m: Meta, validUrl: string -> bool)
  {
    && (m.selectRole.Some? ==> |m.selectRole.value| > 0)
    && (m.redirectUrl.Some? ==> !EmptyString(m.redirectUrl.value) && validUrl(m.redirectUrl.value))
  }

  /** The flag is stored as submitted when non-empty and as 0 otherwise; the
      roles are stored when non-empty and their key deleted otherwise. */
  lemma SavedFlagAndRoles(m: Meta, form: Form, validUrl: string -> bool, env: SaveEnv)
    ensures var s := SavedMeta(m, form, validUrl, env);
            && s.restrictAccess.Some?
            && (form.restrictAccess.Some? && form.restrictAccess.value != 0
                ==> s.restrictAccess.value == form.restrictAccess.value)
            && (form.restrictAccess.None? || form.restrictAccess.value == 0 ==> s.restrictAccess.value == 0)
            && (|form.selectRole| > 0 ==> s.selectRole == Some(form.selectRole))
            && (form.selectRole == [] ==> s.selectRole.None?)
  {
  }

  /** The redirect key after a save: deleted for an empty submission, left as
      it was for a refused one, and set to the submission otherwise. A stored
      redirect that changed is therefore never the permalink, and is valid. */
  lemma SavedRedirect(m: Meta, form: Form, validUrl: string -> bool, env: SaveEnv)
    ensures var s := SavedMeta(m, form, validUrl, env);
            && (EmptyString(form.redirectUrl) ==> s.redirectUrl.None?)
            && (NoticeRequested(form, validUrl, env) ==> s.redirectUrl == m.redirectUrl)
            && (!EmptyString(form.redirectUrl) && !NoticeRequested(form, validUrl, env)
                ==> s.redirectUrl == Some(form.redirectUrl))
            && (s.redirectUrl != m.redirectUrl && s.redirectUrl.Some?
                ==> validUrl(s.redirectUrl.value) && s.redirectUrl.value != env.permalink)
  {
  }

  /** A save keeps a well-formed record well-formed. */
  lemma SavePreservesWellFormed(m: Meta, form: Form, validUrl: string -> bool, env: SaveEnv)
    requires WellFormed(m, validUrl)
    ensures WellFormed(SavedMeta(m, form, validUrl, env), validUrl)
  {
  }

  /** On a well-formed record the render-time URL check never blanks the
      stored redirect. */
  lemma WellFormedRedirectSurvivesRead(m: Meta, validUrl: string -> bool)
    requires WellFormed(m, validUrl)
    ensures Access.SanitizedRedirect(m, validUrl) == RedirectOf(m)
  {
  }

  /** Saving the flag 1 with roles R makes the post restricted to exactly R:
      reading it back yields the same flag and the same roles. */
  lemma SaveRoundTrip(m: Meta, form: Form, validUrl: string -> bool, env: SaveEnv)
    requires form.restrictAccess == Some(1) && |form.selectRole| > 0
    ensures FlagOf(SavedMeta(m, form, validUrl, env)) == 1
    ensures RolesOf(SavedMeta(m, form, validUrl, env)) == form.selectRole
    ensures Access.Restricted(SavedMeta(m, form, validUrl, env))
  {
  }

  /** A passing save of flag 1, roles R and a valid redirect U other than the
      permalink makes the content filter send a user with roles, none of them
      in R, and not privileged, to U with a 302 (the post has no flagged
      parent). */
  lemma SaveThenRedirects(store: Store, post: PostId, parent: PostId, form: Form,
                          validUrl: string -> bool, env: SaveEnv, a: Access.Actor,
                          content: string, home: string)
    requires form.restrictAccess == Some(1) && |form.selectRole| > 0
    requires !EmptyString(form.redirectUrl) && !RedirectRefused(form.redirectUrl, validUrl, env)
    requires parent != post && (parent == 0 || FlagOf(Lookup(store, parent)) <= 0)
    requires !a.privileged && forall r :: r in a.roles ==> r !in form.selectRole
    ensures var saved := store[post := SavedMeta(Lookup(store, post), form, validUrl, env)];
            Access.RestrictContentPage(saved, post, parent, a, content, validUrl, home)
            == Access.Redirect(form.redirectUrl, 302)
  {
    var saved := store[post := SavedMeta(Lookup(store, post), form, validUrl, env)];
    assert Access.EffectiveMeta(saved, post, parent) == SavedMeta(Lookup(store, post), form, validUrl, env);
    Access.ContentPageOutcome(saved, post, parent, a, content, validUrl, home);
  }

  /** What follows the first '?' of a URL, or "" when it has none. */
  function QueryOf(u: string): string
  {
    if u == [] then []
    else if u[0] == '?' then u[1..]
    else QueryOf(u[1..])
  }

  /** A query string split at each '&' into its parameters: a leading '&'
      starts a new parameter, any other character joins the first one. */
  function Params(q: string): (ps: seq<string>)
    ensures |ps| > 0
  {
    if q == [] then [""]
    else
      var rest := Params(q[1..]);
      if q[0] == '&' then [""] + rest else [[q[0]] + rest[0]] + rest[1..]
  }

  /** The URL carries the parameter key=value in its query. */
  predicate HasQueryArg(u: string, key: string, value: string)
  {
    '?' in u && key + "=" + value in Params(QueryOf(u))
  }

  /** What add_query_arg puts between url and the new parameter: '?' when url
      has no query, nothing when its query is empty or already ends in '&',
      and '&' otherwise. */
  function Separator(url: string): string
  {
    var q := QueryOf(url);
    if '?' !in url then "?" else if q == "" || q[|q| - 1] == '&' then "" else "&"
  }

  /** add_query_arg(array(key => value), url) for a key that url's query does
      not hold yet: url is kept and the parameter goes after its query. */
  function AddQueryArg(key: string, value: string, url: string): (r: string)
    requires '&' !in key && '&' !in value
    ensures url <= r
    ensures HasQueryArg(r, key, value)
    ensures forall p :: p in Params(QueryOf(url)) && p != "" ==> p in Params(QueryOf(r))
  {
    QueryGainsParam(key + "=" + value, url);
    url + (Separator(url) + (key + "=" + value))
  }

  /** The parameter lists of url and of url with arg added. */
  lemma QueryGainsParam(arg: string, url: string)
    requires '&' !in arg
    ensures var r := url + (Separator(url) + arg);
            '?' in r && arg in Params(QueryOf(r))
            && forall p :: p in Params(QueryOf(url)) && p != "" ==> p in Params(QueryOf(r))
  {
    var q := QueryOf(url);
    var sep := Separator(url);
    ParamsSingle(arg);
    if '?' !in url {
      QueryAfterFirstMark(url, arg);
      assert QueryOf(url) == "" by { QueryOfNoMark(url); }
      assert Params("") == [""];
      assert (url + (sep + arg))[|url|] == '?';
    } else {
      QueryExtends(url, sep + arg);
      if q == "" {
        assert q + (sep + arg) == arg;
        assert Params("") == [""];
      } else if q[|q| - 1] == '&' {
        var q0 := q[..|q| - 1];
        assert q == q0 + "&" + "";
        assert q + (sep + arg) == q0 + "&" + arg;
        ParamsJoin(q0, "");
        ParamsJoin(q0, arg);
        assert Params("") == [""];
      } else {
        assert q + (sep + arg) == q + "&" + arg;
        ParamsJoin(q, arg);
      }
    }
  }

  /** A URL without '?' has an empty query. */
  lemma {:induction false} QueryOfNoMark(u: string)
    requires '?' !in u
    ensures QueryOf(u) == ""
  {
    if u != [] {
      QueryOfNoMark(u[1..]);
    }
  }

  /** The query of a URL without '?' extended by '?' and t is t. */
  lemma {:induction false} QueryAfterFirstMark(u: string, t: string)
    requires '?' !in u
    ensures QueryOf(u + ("?" + t)) == t
  {
    if u == [] {
      assert u + ("?" + t) == "?" + t;
    } else {
      assert (u + ("?" + t))[1..] == u[1..] + ("?" + t);
      QueryAfterFirstMark(u[1..], t);
    }
  }

  /** Text appended to a URL that has a '?' is appended to its query. */
  lemma {:induction false} QueryExtends(u: string, t: string)
    requires '?' in u
    ensures QueryOf(u + t) == QueryOf(u) + t
  {
    if u[0] == '?' {
      assert (u + t)[1..] == u[1..] + t;
    } else {
      assert (u + t)[1..] == u[1..] + t;
      assert '?' in u[1..];
      QueryExtends(u[1..], t);
    }
  }

  /** Joining two queries with '&' joins their parameter lists. */
  lemma {:induction false} ParamsJoin(q: string, t: string)
    ensures Params(q + "&" + t) == Params(q) + Params(t)
  {
    var s := q + "&" + t;
    if q == [] {
      assert s == "&" + t;
      assert s[1..] == t;
    } else {
      assert s[0] == q[0];
      assert s[1..] == q[1..] + "&" + t;
      ParamsJoin(q[1..], t);
    }
  }

  /** A query without '&' is a single parameter. */
  lemma {:induction false} ParamsSingle(q: string)
    requires '&' !in q
    ensures Params(q) == [q]
  {
    if q != [] {
      assert '&' !in q[1..];
      ParamsSingle(q[1..]);
      assert [q[0]] + q[1..] == q;
    }
  }



  class Plugin {
    /** The post-meta table, restricted to the plugin's three keys. */
    var meta: Store
    /** Whether add_notice_query_var is hooked on redirect_post_location. */
    var noticeHooked: bool
    /** FILTER_VALIDATE_URL. */
    const validUrl: string -> bool

    ghost predicate Valid()
      reads this
    {
      forall id :: id in meta ==> WellFormed(meta[id], validUrl)
    }

    constructor (meta0: Store, validUrl: string -> bool)
      requires forall id :: id in meta0 ==> WellFormed(meta0[id], validUrl)
      ensures Valid()
      ensures meta == meta0 && !noticeHooked && this.validUrl == validUrl
    {
      meta := meta0;
      noticeHooked := false;
      this.validUrl := validUrl;
    }

    /** update_post_meta(id, restrict_access, v). */
    method UpdateFlag(id: PostId, v: int)
      modifies this
      ensures meta == old(meta)[id := Lookup(old(meta), id).(restrictAccess := Some(v))]
      ensures noticeHooked == old(noticeHooked)
    {
      meta := meta[id := Lookup(meta, id).(restrictAccess := Some(v))];
    }

    /** update_post_meta(id, select_role, roles). */
    method UpdateRoles(id: PostId, roles: seq<Role>)
      modifies this
      ensures meta == old(meta)[id := Lookup(old(meta), id).(selectRole := Some(roles))]
      ensures noticeHooked == old(noticeHooked)
    {
      meta := meta[id := Lookup(meta, id).(selectRole := Some(roles))];
    }

    /** delete_post_meta(id, select_role). */
    method DeleteRoles(id: PostId)
      modifies this
      ensures meta == old(meta)[id := Lookup(old(meta), id).(selectRole := None)]
      ensures noticeHooked == old(noticeHooked)
    {
      meta := meta[id := Lookup(meta, id).(selectRole := None)];
    }

    /** update_post_meta(id, redirect_url, u). */
    method UpdateRedirect(id: PostId, u: string)
      modifies this
      ensures meta == old(meta)[id := Lookup(old(meta), id).(redirectUrl := Some(u))]
      ensures noticeHooked == old(noticeHooked)
    {
      meta := meta[id := Lookup(meta, id).(redirectUrl := Some(u))];
    }

    /** delete_post_meta(id, redirect_url). */
    method DeleteRedirect(id: PostId)
      modifies this
      ensures meta == old(meta)[id := Lookup(old(meta), id).(redirectUrl := None)]
      ensures noticeHooked == old(noticeHooked)
    {
      meta := meta[id := Lookup(meta, id).(redirectUrl := None)];
    }

    /** register_restrict_role(post_id). When a guard fails it returns false
        and changes nothing. Otherwise it rewrites only this post's record, as
        SavedMeta says, hooks the notice filter when the redirect is refused,
        and returns true. */
    method RegisterRestrictRole(postId: PostId, form: Form, env: SaveEnv) returns (saved: bool)
      requires Valid()
      modifies this
      ensures Valid()
      ensures saved == GuardsPass(form, env)
      ensures !saved ==> meta == old(meta) && noticeHooked == old(noticeHooked)
      ensures saved ==> meta == old(meta)[postId := SavedMeta(Lookup(old(meta), postId), form, validUrl, env)]
      ensures saved ==> noticeHooked == (old(noticeHooked) || NoticeRequested(form, validUrl, env))
    {
      if env.doingAutosave {
        return false;
      }
      if EmptyString(form.nonce) || !env.verifyNonce(form.nonce) {
        return false;
      }
      ghost var m0 := meta;
      ghost var before := Lookup(meta, postId);
      ghost var target := SavedMeta(before, form, validUrl, env);

      if form.restrictAccess.Some? && form.restrictAccess.value != 0 {
        UpdateFlag(postId, form.restrictAccess.value);
      } else {
        UpdateFlag(postId, 0);
      }
      ghost var r1 := before.(restrictAccess := target.restrictAccess);
      assert meta == m0[postId := r1];

      if |form.selectRole| > 0 {
        UpdateRoles(postId, form.selectRole);
      } else {
        DeleteRoles(postId);
      }
      ghost var r2 := r1.(selectRole := target.selectRole);
      assert meta == m0[postId := r2];

      if !EmptyString(form.redirectUrl) {
        if RedirectRefused(form.redirectUrl, validUrl, env) {
          noticeHooked := true;
        } else {
          UpdateRedirect(postId, form.redirectUrl);
        }
      } else {
        DeleteRedirect(postId);
      }
      assert r2.(redirectUrl := target.redirectUrl) == target;
      assert meta == m0[postId := target];

      SavePreservesWellFormed(before, form, validUrl, env);
      forall id | id in meta
        ensures WellFormed(meta[id], validUrl)
      {
        if id != postId {
          assert meta[id] == m0[id];
        }
      }
      return true;
    }

    /** add_notice_query_var(location): unhooks itself and appends
        redirectURL=ID to the location. */
    method AddNoticeQueryVar(location: string) returns (r: string)
      modifies this
      ensures !noticeHooked && meta == old(meta)
      ensures r == AddQueryArg("redirectURL", "ID", location)
      ensures location <= r && HasQueryArg(r, "redirectURL", "ID")
    {
      noticeHooked := false;
      r := AddQueryArg("redirectURL", "ID", location);
    }
  }
}
