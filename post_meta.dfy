/** The per-post metadata the plugin keeps in the host's post-meta table, and
    how its handlers read it back with get_post_meta(id, key, true). */
module PostMeta {

  datatype Option<T> = None | Some(value: T)

  type PostId = int

  /** A role slug, such as "member" or "administrator". */
  type Role = string

  /** The plugin's three keys for one post: pcr-rpbr_restrict_access,
      pcr-rpbr_select_role and pcr-rpbr_redirect_url. None stands for a key
      with no stored row. */
  datatype Meta = Meta(
    restrictAccess: Option<int>,
    selectRole: Option<seq<Role>>,
    redirectUrl: Option<string>)

  /** The record of a post that has none of the three keys. */
  const NoMeta: Meta := Meta(None, None, None)

  /** The post-meta table, keyed by post ID. */
  type Store = map<PostId, Meta>

  function Lookup(store: Store, id: PostId): Meta
  {
    if id in store then store[id] else NoMeta
  }

  /** PHP's empty() on a string: both "" and "0" are empty. */
  predicate EmptyString(s: string)
  {
    s == "" || s == "0"
  }

  /** The restriction flag as the handlers compare it. A missing row reads as
      '', which `== 1`, `> 0` and `(int)` all treat as 0. */
  function FlagOf(m: Meta): int
  {
    match m.restrictAccess
    case None => 0
    case Some(v) => v
  }

  /** The selected roles; a missing row reads as '', which empty() accepts. */
  function RolesOf(m: Meta): seq<Role>
  {
    match m.selectRole
    case None => []
    case Some(r) => r
  }

  /** The stored redirect URL; a missing row reads as ''. */
  function RedirectOf(m: Meta): string
  {
    match m.redirectUrl
    case None => ""
    case Some(u) => u
  }
}
