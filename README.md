# PCR Restrict Post By Role, modelled in Dafny

The plugin restricts pages and posts to users who hold chosen roles. Every
post can carry three metadata keys: a restriction flag
(`pcr-rpbr_restrict_access`), a list of selected roles
(`pcr-rpbr_select_role`) and an optional redirect URL
(`pcr-rpbr_redirect_url`). The plugin's hook handlers read those keys and do
four jobs:

- The content filter (`restrict_content_page`) lets a user through, redirects
  them with a 302, or replaces the whole body with a fixed "Restricted
  Content" fragment. A child post follows its parent's record when the
  parent is flagged.
- The save handler (`register_restrict_role`) writes the three keys when a
  post is saved. It is guarded by the autosave and nonce checks. A refused
  redirect leaves the old value and hooks a one-shot admin notice
  (`add_notice_query_var`).
- The search filter (`restrict_search_results`) puts the IDs of hidden posts
  into `post__not_in` and `post_parent__not_in`.
- The listing filters drop entries that link to hidden posts. These are the
  navigation menu (`restrict_menu_items`), the recent-updates list
  (`restrict_recent_items`) and list items in the body that hold such links
  (`strip_hard_links`). The editor's role picker (`dropdown_roles_multi`)
  offers every editable role except the built-in ones, with selected roles
  listed first.

Files, one module each:

- `post_meta.dfy` (`PostMeta`): the metadata record, the post-meta table as
  a map from post ID to record, and how a missing key reads.
- `seqs.dfy` (`Seqs`): `array_unique` and removing values from a sequence.
- `access.dfy` (`Access`): which record governs a post, the access decision,
  the content filter's response, and the "hidden" rule the listing and search
  filters share.
- `save_path.dfy` (`SavePath`): the save handler as a class whose field is
  the post-meta map, plus the notice filter.
- `search_filter.dfy` (`SearchFilter`): the search filter, over a `Query`
  class whose query variables it sets.
- `scrubbers.dfy` (`Scrubbers`): the menu, recent-items and anchor filters.
- `role_dropdown.dfy` (`RoleDropdown`): the role options of the editor.

Host calls become inputs:

- `get_post_meta`, `update_post_meta` and `delete_post_meta` act on the map.
- `current_user_can(role)` is membership in the user's assigned roles.
  `current_user_can('administrator') || current_user_can('editor')` is a
  separate `privileged` flag, because WordPress can grant it without either
  role being assigned.
- These are parameters: `FILTER_VALIDATE_URL`, `wp_verify_nonce`,
  `url_to_postid`, `get_home_url`, `get_permalink(get_the_ID())`, the
  parent ID, the SQL rows, the menu items and the admin-screen test.

Behaviour of the code a reader might not expect, kept as written:

- The flag is not a boolean. The save writes the submitted value, or 0.
  Every read compares it with 1, except the parent test, which asks for
  "above 0". So a parent whose flag is 2 takes over its child and then
  restricts nothing.
- The administrator/editor bypass sits inside the loop over the user's
  assigned roles. A privileged user with no assigned role is therefore denied
  by the content filter.
- Unticking the checkbox writes 0; it does not delete the record. The roles
  key is deleted only when no role is submitted.
- The listing and search filters do not apply parent inheritance. They test
  `current_user_can` on the selected roles, not the assigned roles against
  the selection.
- The "own permalink" the save refuses is the permalink of `get_the_ID()`
  (the current global post), which the model takes as an input.

## Model

| member | source | states |
|---|---|---|
| `Access.EffectiveMeta` | wp-restrict-page-by-role.php:532-543 | the governing record is the post's own or its parent's; with no parent it is the post's own; a record other than the post's own has a flag above 0 |
| `Access.ParentOverridesChild` | wp-restrict-page-by-role.php:532-543 | when the parent's flag is above 0, the parent's whole record governs the post, and changing the child's own record changes nothing |
| `Access.OwnRecordWithoutFlaggedParent` | wp-restrict-page-by-role.php:532-543 | with no parent, or a parent whose flag is not above 0, the post's own record governs, whatever the parent's roles and redirect are |
| `Access.AssignedRolesAdmit` | wp-restrict-page-by-role.php:553-558 | the loop over assigned roles admits only a user with an assigned role, and an unprivileged one only through a role that is selected |
| `Access.AssignedRolesAdmitIff` | wp-restrict-page-by-role.php:553-558 | the early-return loop over assigned roles admits exactly when the user has at least one assigned role and is privileged or holds a selected role |
| `Access.SanitizedRedirect` | wp-restrict-page-by-role.php:545-547 | the redirect read at render time is the stored one or blank; a non-empty result has passed URL validation; a non-empty stored redirect that fails validation is blanked |
| `Access.Decide` | wp-restrict-page-by-role.php:545-558 | the decision is Allow or a denial carrying the sanitized redirect; only a restricted record denies, and never a privileged user with an assigned role |
| `Access.DecideMatchesAdmits` | wp-restrict-page-by-role.php:549-558 | the decision allows exactly when the record is not restricted (flag not 1 or no roles) or the user has an assigned role and is privileged or shares a selected role; a denial carries the sanitized redirect |
| `Access.NoAssignedRolesDenied` | wp-restrict-page-by-role.php:553-558 | a user with no assigned roles is denied every restricted record, even when privileged |
| `Access.ConsistentStaffAdmitted` | wp-restrict-page-by-role.php:553-558 | a user who holds the administrator or editor role, and is therefore privileged, is admitted to every record |
| `Access.DeniedFragmentShowsNotice` | wp-restrict-page-by-role.php:565-578 | the denial fragment contains the "Restricted Content" heading and a link to the home URL |
| `Access.RestrictContentPage` | wp-restrict-page-by-role.php:530-583 | the filter returns the body itself or the denial fragment, or redirects with 302 to the governing record's stored URL; any change to the body happens only under a restricted record |
| `Access.ContentPageOutcome` | wp-restrict-page-by-role.php:530-583 | the body passes unchanged exactly when the governing record admits the user; otherwise a non-empty valid redirect gives a 302 to it, and anything else replaces the whole body with the denial fragment |
| `Access.UnrestrictedPassesThrough` | wp-restrict-page-by-role.php:549-582 | a governing record that is not restricted returns the body unchanged for every user |
| `Access.RedirectTargetIsValid` | wp-restrict-page-by-role.php:545-562 | every redirect the content filter issues has status 302 and a non-empty URL that passed validation |
| `Access.MemberOnlyPageDeniesAnonymous` | wp-restrict-page-by-role.php:549-578 | a post restricted to "member" with no redirect shows the denial fragment to a user with no roles |
| `Access.ChildInheritsParentRestriction` | wp-restrict-page-by-role.php:532-578 | a child with no record of its own under a parent restricted to "member" shows the denial fragment to an unprivileged user without "member" |
| `Access.FilterCan` | wp-restrict-page-by-role.php:349 | `array_filter(roles, 'current_user_can')` keeps exactly the roles the user can (repeats are kept; the callers apply `array_unique` first) |
| `Access.HiddenFrom` | wp-restrict-page-by-role.php:341-351 | a post the listing rule hides has a restricted record of its own |
| `Access.HiddenFromIff` | wp-restrict-page-by-role.php:341-351 | the listing rule hides a post exactly when its own record is restricted and the user can none of its selected roles |
| `Access.ContentFilterAgreesWithListings` | wp-restrict-page-by-role.php:549-558 | for a post with no flagged parent and a user with an assigned role, the content filter denies exactly what the listing rule hides from an unprivileged user |
| `Seqs.Unique` | wp-restrict-page-by-role.php:513-514 | `array_unique` keeps the same set of values, with no value twice, and is no longer than its input |
| `Seqs.UniqueOfDistinct` | wp-restrict-page-by-role.php:513 | `array_unique` leaves a list without repeats unchanged |
| `Seqs.FilterOut` | wp-restrict-page-by-role.php:354 | removing the entries of a set of IDs keeps exactly the other entries |
| `Seqs.FilterOutTwice` | wp-restrict-page-by-role.php:353-356 | removing one set of IDs and then another is the same as removing their union |
| `SavePath.SavedMeta` | wp-restrict-page-by-role.php:266-298 | a passing save always leaves a flag, never leaves an empty role list, and leaves the redirect deleted, as it was, or as submitted |
| `SavePath.SavedFlagAndRoles` | wp-restrict-page-by-role.php:266-280 | a save writes the flag as submitted when non-empty and as 0 otherwise; it stores the roles when non-empty and deletes the key otherwise |
| `SavePath.SavedRedirect` | wp-restrict-page-by-role.php:282-298 | an empty redirect deletes the key; a refused one (invalid or the permalink) leaves the old value; an accepted one is stored; a changed stored redirect is valid and never the permalink |
| `SavePath.SavePreservesWellFormed` | wp-restrict-page-by-role.php:266-298 | a save keeps the record invariant: stored roles are non-empty and a stored redirect is non-empty and valid |
| `SavePath.WellFormedRedirectSurvivesRead` | wp-restrict-page-by-role.php:545-547 | the render-time URL check never blanks a redirect that the save path stored |
| `SavePath.SaveRoundTrip` | wp-restrict-page-by-role.php:266-280 | saving flag 1 with roles R reads back as flag 1 and roles R, and makes the post restricted |
| `SavePath.SaveThenRedirects` | wp-restrict-page-by-role.php:255-301 | after saving flag 1, roles R and an accepted redirect U, the content filter sends an unprivileged user with none of R to U with a 302 |
| `SavePath.AddQueryArg` | wp-restrict-page-by-role.php:305-309 | the new location carries the parameter `key=value` in its query (the one `admin_notices` tests for), keeps the old location as its prefix, and keeps every non-empty parameter of the old query |
| `SavePath.Plugin.UpdateFlag` | wp-restrict-page-by-role.php:268-272 | `update_post_meta` of the flag changes only that key of that post |
| `SavePath.Plugin.UpdateRoles` | wp-restrict-page-by-role.php:277 | `update_post_meta` of the roles changes only that key of that post |
| `SavePath.Plugin.DeleteRoles` | wp-restrict-page-by-role.php:279 | `delete_post_meta` of the roles removes only that key of that post |
| `SavePath.Plugin.UpdateRedirect` | wp-restrict-page-by-role.php:292 | `update_post_meta` of the redirect changes only that key of that post |
| `SavePath.Plugin.DeleteRedirect` | wp-restrict-page-by-role.php:297 | `delete_post_meta` of the redirect removes only that key of that post |
| `SavePath.Plugin.RegisterRestrictRole` | wp-restrict-page-by-role.php:255-301 | returns false with no change on an autosave or a missing or invalid nonce; otherwise rewrites only this post's record as the save rule says, hooks the notice exactly when a non-empty redirect is refused, keeps the store invariant and returns true |
| `SavePath.Plugin.AddNoticeQueryVar` | wp-restrict-page-by-role.php:303-306 | unhooks itself, leaves the store alone, and returns a location that starts with the old one and carries `redirectURL=ID` in its query |
| `SearchFilter.Query.Set` | wp-restrict-page-by-role.php:513-514 | setting a query variable changes that variable only |
| `SearchFilter.HiddenPosts` | wp-restrict-page-by-role.php:491-510 | the loop collects exactly the row IDs that are positive and hidden from the user |
| `SearchFilter.ExclusionList` | wp-restrict-page-by-role.php:513-514 | the list written into both query variables has no repeats and holds only positive row IDs hidden from the user |
| `SearchFilter.ExclusionListExact` | wp-restrict-page-by-role.php:491-514 | the exclusion list has no repeats and holds exactly the positive row IDs whose record is restricted and whose selected roles the user can none of |
| `SearchFilter.RestrictSearchResults` | wp-restrict-page-by-role.php:463-519 | for an unprivileged user on a search outside the admin screens, both `post__not_in` and `post_parent__not_in` are set to the exclusion list and nothing else changes; otherwise the query is unchanged |
| `SearchFilter.AnonymousSearchExcludesAllRestricted` | wp-restrict-page-by-role.php:481-514 | a search by a user with no roles excludes every restricted post among the rows |
| `Scrubbers.HiddenMenuIds` | wp-restrict-page-by-role.php:337-359 | a menu none of whose entries links to a post cuts nothing |
| `Scrubbers.HiddenMenuIdsIff` | wp-restrict-page-by-role.php:337-359 | a menu-item ID is cut exactly when some main-nav entry with that ID links to a positive post ID that is hidden from the user |
| `Scrubbers.RestrictMenuItems` | wp-restrict-page-by-role.php:326-362 | a privileged user gets the items unchanged; otherwise exactly the entries with cut IDs are removed and the rest keep their order |
| `Scrubbers.SelectedRolesAdmit` | wp-restrict-page-by-role.php:386-390 | the role loop returns early only when there is a selected role, and for an unprivileged user only through a role they can |
| `Scrubbers.SelectedRolesAdmitIff` | wp-restrict-page-by-role.php:386-390 | the recent-items role loop returns early exactly when there is a selected role and the user is privileged or can one of them |
| `Scrubbers.RecentLoop` | wp-restrict-page-by-role.php:380-401 | the written loop returns null only when nothing was removed, returns only items it was given, and with no restricted item left returns the items so far, or null when nothing was removed |
| `Scrubbers.RecentItemsAsWritten` | wp-restrict-page-by-role.php:374-403 | the written filter returns only items of the list, and returns null for any list with no restricted item |
| `Scrubbers.RecentItemsAsWrittenDropsUnrestrictedList` | wp-restrict-page-by-role.php:374-403 | as written, a list with no restricted item comes back as null |
| `Scrubbers.RecentItemsAsWrittenLeaksAfterVisibleItem` | wp-restrict-page-by-role.php:384-390 | as written, a later item hidden from the user is returned once a restricted item they may see has been met |
| `Scrubbers.RecentItemsAsWrittenOtherwiseCorrect` | wp-restrict-page-by-role.php:374-403 | when some item is restricted and none is restricted to a role the user can, the written code returns the corrected list |
| `Scrubbers.VisibleRecent` | wp-restrict-page-by-role.php:374-403 | the visible recent items are exactly those the user is privileged for or that are not hidden from them |
| `Scrubbers.RestrictRecentItems` | wp-restrict-page-by-role.php:374-403 | the corrected filter returns exactly the visible items, in order, and always returns a list |
| `Scrubbers.StripHardLinks` | wp-restrict-page-by-role.php:585-627 | the corrected filter: a privileged user gets the body unchanged; otherwise exactly the list items with an anchor that links to a hidden post are removed, and every other element stays |
| `Scrubbers.StripLive` | wp-restrict-page-by-role.php:595-624 | the written loop over the live anchor list removes only elements of the body, and only list items with an anchor linking to a hidden post |
| `Scrubbers.StripHardLinksAsWritten` | wp-restrict-page-by-role.php:585-627 | as written, a privileged user gets the body unchanged, and no element is removed unless it is a list item with an anchor linking to a hidden post |
| `Scrubbers.StripHardLinksAsWrittenSkipsNextItem` | wp-restrict-page-by-role.php:595-621 | as written, of two adjacent list items that both link to posts hidden from an anonymous reader, only the first is removed; the corrected filter removes both |
| `RoleDropdown.DropdownRolesMulti` | wp-restrict-page-by-role.php:157-187 | the loop builds the selected options, then the others, over the non-built-in editable roles |
| `RoleDropdown.RoleOptions` | wp-restrict-page-by-role.php:165-186 | there are no more options than editable roles, and when the editable roles are distinct no role is offered twice |
| `RoleDropdown.OptionsOfExact` | wp-restrict-page-by-role.php:176-184 | each half of the options holds exactly the non-built-in editable roles whose selection matches that half |
| `RoleDropdown.RoleOptionsProperties` | wp-restrict-page-by-role.php:165-186 | no built-in role is offered; every other editable role is offered and marked selected exactly when stored; selected options come before unselected ones |

## Findings

| source | as written | input that shows it | evidently intended | confidence | as-written member | corrected member |
|---|---|---|---|---|---|---|
| wp-restrict-page-by-role.php:401 | returns `$updatedArray`, which is assigned only after an item has been removed | a list with no restricted item, such as the single post 7 with no metadata | the list comes back unchanged | high, not executed | `Scrubbers.RecentItemsAsWrittenDropsUnrestrictedList` | `Scrubbers.RestrictRecentItems` |
| wp-restrict-page-by-role.php:386-390 | returns the whole array at the first restricted item whose roles the user can | posts 1 (restricted to "member") and 2 (restricted to "staff"), read by a "member" | post 2 is removed, because the user can none of its roles | medium, not executed | `Scrubbers.RecentItemsAsWrittenLeaksAfterVisibleItem` | `Scrubbers.RestrictRecentItems` |
| wp-restrict-page-by-role.php:595-621 | removes an `<li>` while walking the live list from `getElementsByTagName('a')`; the iterator's next index then skips the anchor that moved into the removed one's place | `<li><a href=h1></li><li><a href=h2></li>`, both posts restricted to "staff", read by a user with no roles | both list items are removed | medium, not executed | `Scrubbers.StripHardLinksAsWrittenSkipsNextItem` | `Scrubbers.StripHardLinks` |

`Scrubbers.RecentItemsAsWritten` models the recent-items loop as written.
`Scrubbers.RecentItemsAsWrittenOtherwiseCorrect` shows that it matches the
corrected filter outside the first two cases. `Scrubbers.StripHardLinksAsWritten`
models the anchor loop as written: each step takes the anchor at the next
index of the document as it stands after any removal.

## Left out

- PHP's loose comparisons are not modelled. Stored values are strings, but
  the flag is modelled as an integer, with a missing row read as 0. With the
  checkbox's own value `1`, or an absent field, `== 1`, `> 0` and
  `(int) === 1` all agree.
- `empty()` on a string is modelled as `""` or `"0"`. `esc_attr` is taken as
  already applied to the submitted flag and redirect.
- The denial fragment keeps the source's markup but not its indentation
  whitespace. The `__()` translations are taken as the English strings.
- The regex rewriting of menu markup, and the whitespace collapsing before
  it, are left out. So are the DOMDocument parse and serialise in
  `strip_hard_links`. The model keeps only which `<li>` goes. Nested markup
  and the lazy `.*?` match that stops at the first `</li>` are not captured.
- The unused `$menu` array that `restrict_menu_items` unsets from is not
  modelled, because the handler discards it.
- `restrict_pagelist_items` is left out. It depends on `get_page_by_title`
  and a fixed class-string regex, and is only hooked when a third-party
  plugin is active.
- `restrict_page_title` and `restrict_filter_title` are left out: their hooks
  are commented out. `invalid_redirect_url_notice` is never hooked.
- The SQL in `restrict_search_results` is left out; its result is the
  `rows` input. The `scandir`/`PHP_SELF` admin-screen test is the
  `isAdminScreen` input.
- `asort` in `dropdown_roles_multi` is left out: the editable roles are taken
  in their sorted order. The option HTML, `esc_attr` and
  `translate_user_role` are left out too.
- `wp_redirect` followed by `exit` is the terminal `Redirect(url, 302)`
  response.
- The `echo $post_id` in the autosave branch is left out.
- Multiple rows for one meta key are not modelled: one post has at most one
  value per key.
- `recent-pagepost-updates` reindexing (`array_values`, and the holes of the
  early return) is not visible on a sequence.
- Plugin plumbing is left out: the singleton, hook registration, textdomain,
  scripts and styles, `load_helper`, `admin_notices`, `get_select_html` and
  `post_submitbox_misc_actions`.
- `helper/post-type.php` and `assets/js/main.js` are not part of this model.
  The first only registers a post type; the second only shows or hides the
  role box.
- Scrubbers.StripHardLinks: the corrected filter, which the rest of the
  model uses. The source as written can skip the anchor right after each
  removed `<li>` and keep a list item it should remove; that behaviour is
  `Scrubbers.StripHardLinksAsWritten`, listed under Findings.
- SavePath.AddQueryArg: does not model how `add_query_arg` parses and
  re-serialises the existing query (the model keeps its text verbatim), an
  already-present `redirectURL` key, URL fragments, URL-encoding of the
  value (so a key or value containing `&` is excluded), or a location with no
  `?` that contains `=`, which WordPress treats as a bare query. A location
  whose query is empty or ends in `&` gets no extra separator, as WordPress
  gives `x?redirectURL=ID` for `x?`.
- `Access.Actor` does not tie the administrator and editor roles to the
  `privileged` flag. `Access.ConsistentActor` states that link, and
  `Access.ConsistentStaffAdmitted` uses it; the other lemmas hold for every
  actor, including ones WordPress cannot produce.
- SavePath.Plugin.Valid: assumes the URL validator the save uses is the one
  the content filter uses.
