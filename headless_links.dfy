/**
 * The Next.js plugin's `Links` class: it points WordPress's preview links,
 * home URL, REST permalinks and in-content links at a headless frontend.
 */
module HeadlessLinks {
  import opened PhpCore
  import opened PhpStrings
  import opened PhpNumbers
  import opened WordPress

  /** The name under which `override_post_links` is hooked to `save_post`. */
  const OverridePostLinksHook := "override_post_links"

  /** A string-or-null value that PHP's `!` treats as true. */
  predicate Present(v: Option<string>) {
    v.Some? && Truthy(v.value)
  }

  /** `rtrim( NEXTJS_FRONTEND_URL, '/' )` when the constant is defined, null otherwise. */
  function FrontendUrl(constant: Option<string>): (r: Option<string>)
    ensures r.Some? <==> constant.Some?
    ensures r.Some? ==> |r.value| <= |constant.value| && r.value == constant.value[..|r.value|]
    ensures r.Some? ==> forall i | |r.value| <= i < |constant.value| :: constant.value[i] == '/'
    ensures r.Some? && r.value != "" ==> r.value[|r.value| - 1] != '/'
  {
    if constant.Some? then Some(RTrim(constant.value, '/')) else None
  }

  /** `$base . '/' . ltrim( $path, '/' )` for a truthy path, the base alone otherwise. */
  function JoinPath(base: string, path: string): (r: string)
    ensures Falsy(path) ==> r == base
    ensures Truthy(path) ==> |r| > |base| && r[..|base|] == base && r[|base|] == '/'
    ensures Truthy(path) ==> |r| == |base| + 1 || r[|base| + 1] != '/'
    ensures Truthy(path) ==> exists k | 0 <= k <= |path| :: (forall i | 0 <= i < k :: path[i] == '/') && r[|base| + 1..] == path[k..]
  {
    if Truthy(path) then
      var tail := LTrim(path, '/');
      var r := base + "/" + tail;
      assert r[|base| + 1..] == tail == path[|path| - |tail|..];
      r
    else base
  }

  /** Joined to a frontend URL without a trailing '/', there is exactly one '/' at the join. */
  lemma OneSlashAtJoin(constant: string, path: string)
    requires Truthy(path)
    ensures var base := FrontendUrl(Some(constant)).value;
      var r := JoinPath(base, path);
      && r[|base|] == '/'
      && (base == "" || r[|base| - 1] != '/')
      && (|r| == |base| + 1 || r[|base| + 1] != '/')
  {
  }

  /** `$current_screen`: unset, or a screen (an object, or a string naming a class) and what it offers. */
  datatype Screen =
    | NoScreen
    | Screen(hasIsBlockEditor: bool, isBlockEditor: bool)

  /** The REST response whose `data` array the preview filter edits. */
  class RestResponse {
    var data: map<string, string>

    constructor (data: map<string, string>)
      ensures this.data == data
    {
      this.data := data;
    }
  }

  /**
   * The link filters, for one value of the two constants. `escUrlRaw` and
   * `addQueryArg` stand for `esc_url_raw` and `add_query_arg` with one argument.
   */
  class Links {
    const site: Site
    const frontendConstant: Option<string>
    const frontendUrl: Option<string>
    const previewSecret: Option<string>
    const escUrlRaw: string -> string
    const addQueryArg: (string, string, string) -> string

    /** Reads the two constants and hooks `override_post_links` to `save_post`. */
    constructor (site: Site, frontendConstant: Option<string>, secretConstant: Option<string>,
                 escUrlRaw: string -> string, addQueryArg: (string, string, string) -> string)
      modifies site
      ensures this.site == site && this.frontendConstant == frontendConstant
      ensures Valid() && previewSecret == secretConstant
      ensures this.escUrlRaw == escUrlRaw && this.addQueryArg == addQueryArg
      ensures site.saveHooks == old(site.saveHooks) + {OverridePostLinksHook}
      ensures site.meta == old(site.meta) && site.posts == old(site.posts) && site.writes == old(site.writes)
    {
      this.site := site;
      this.frontendConstant := frontendConstant;
      this.frontendUrl := FrontendUrl(frontendConstant);
      this.previewSecret := secretConstant;
      this.escUrlRaw := escUrlRaw;
      this.addQueryArg := addQueryArg;
      new;
      site.AddSaveHook(OverridePostLinksHook);
    }

    /** The stored frontend URL is the trimmed constant, as the constructor sets it. */
    predicate Valid() {
      frontendUrl == FrontendUrl(frontendConstant)
    }

    /** `get_frontend_url`: the constant, trimmed again, which is the stored URL. */
    function GetFrontendUrl(): (r: Option<string>)
      ensures Valid() ==> r == frontendUrl
      ensures r.Some? <==> frontendConstant.Some?
      ensures r.Some? && r.value != "" ==> r.value[|r.value| - 1] != '/'
    {
      FrontendUrl(frontendConstant)
    }

    /**
     * `set_headless_preview_link`: the frontend's preview route for the post
     * with the secret as a query argument, or the original link when either
     * setting is missing or falsy.
     */
    function PreviewLink(link: string, postId: int): (r: string)
      ensures !Present(frontendUrl) || !Present(previewSecret) ==> r == link
      ensures Present(frontendUrl) && Present(previewSecret) ==>
        r == addQueryArg("secret", previewSecret.value, escUrlRaw(PreviewRoute(frontendUrl.value, postId)))
    {
      if !Present(frontendUrl) || !Present(previewSecret) then link
      else addQueryArg("secret", previewSecret.value, escUrlRaw(PreviewRoute(frontendUrl.value, postId)))
    }

    /**
     * `set_headless_home_url` as written: the URL is left alone for the REST
     * scheme, whenever the screen merely offers `is_block_editor`, outside
     * the admin, and without a frontend URL; the checks run in that order.
     */
    function HomeUrlAsWritten(url: string, path: string, scheme: Option<string>, screen: Screen, isAdmin: bool)
      : (r: string)
      ensures (|| scheme == Some("rest") || (screen.Screen? && screen.hasIsBlockEditor) || !isAdmin
               || !Present(GetFrontendUrl())) ==> r == url
      ensures scheme != Some("rest") && !(screen.Screen? && screen.hasIsBlockEditor) && isAdmin && Present(GetFrontendUrl()) ==>
        var base := GetFrontendUrl().value;
        && (Falsy(path) ==> r == base)
        && (Truthy(path) ==> r == base + "/" + LTrim(path, '/'))
    {
      if scheme == Some("rest") then url
      else if screen.Screen? && screen.hasIsBlockEditor then url
      else if !isAdmin then url
      else
        var base := GetFrontendUrl();
        if !Present(base) then url
        else JoinPath(base.value, path)
    }

    /**
     * `set_headless_home_url` as evidently intended: only the block editor
     * itself keeps the WordPress URL, and every other admin page links to the frontend.
     */
    function HomeUrl(url: string, path: string, scheme: Option<string>, screen: Screen, isAdmin: bool)
      : (r: string)
      ensures (|| scheme == Some("rest") || (screen.Screen? && screen.isBlockEditor) || !isAdmin
               || !Present(GetFrontendUrl())) ==> r == url
      ensures scheme != Some("rest") && !(screen.Screen? && screen.isBlockEditor) && isAdmin && Present(GetFrontendUrl()) ==>
        var base := GetFrontendUrl().value;
        && |r| >= |base| && r[..|base|] == base
        && (Falsy(path) ==> r == base)
        && (Truthy(path) ==> r == base + "/" + LTrim(path, '/'))
        && (Truthy(path) ==> |r| > |base| && r[|base|] == '/' && (|r| == |base| + 1 || r[|base| + 1] != '/'))
    {
      if scheme == Some("rest") then url
      else if screen.Screen? && screen.isBlockEditor then url
      else if !isAdmin then url
      else
        var base := GetFrontendUrl();
        if !Present(base) then url
        else JoinPath(base.value, path)
    }

    /**
     * Every admin screen is a `WP_Screen`, which has an `is_block_editor`
     * method; so as written, once the screen is set no admin page gets the
     * frontend URL, although only the block editor was meant to be skipped.
     */
    lemma HomeUrlScreenCheck(url: string, path: string)
      requires Present(GetFrontendUrl()) && Truthy(path)
      ensures HomeUrlAsWritten(url, path, None, Screen(true, false), true) == url
      ensures var r := HomeUrl(url, path, None, Screen(true, false), true);
        r == JoinPath(GetFrontendUrl().value, path) && r[|GetFrontendUrl().value|] == '/'
    {
    }

    /**
     * `set_headless_rest_preview_link`: a draft's link becomes its preview
     * link (`get_preview_post_link`, which runs the preview filter over
     * WordPress's own `defaultPreview`); a published post's permalink on the
     * site gets the frontend URL (or nothing, when it is undefined) in place
     * of the site URL; any other status leaves the response as it was.
     */
    method SetHeadlessRestPreviewLink(response: RestResponse, postId: int, status: string,
                                      defaultPreview: string, permalink: string)
      modifies response
      ensures status == "draft" ==> response.data == old(response.data)["link" := PreviewLink(defaultPreview, postId)]
      ensures status == "publish" && IContains(permalink, site.siteUrl) ==>
        response.data == old(response.data)["link" := IReplace(permalink, site.siteUrl, FrontendOrEmpty())]
      ensures status != "draft" && !(status == "publish" && IContains(permalink, site.siteUrl)) ==>
        response.data == old(response.data)
    {
      if status == "draft" {
        response.data := response.data["link" := PreviewLink(defaultPreview, postId)];
      } else if status == "publish" {
        if IContains(permalink, site.siteUrl) {
          response.data := response.data["link" := IReplace(permalink, site.siteUrl, FrontendOrEmpty())];
        }
      }
    }

    /** `get_frontend_url()` used as a replacement, where null reads as "". */
    function FrontendOrEmpty(): (r: string)
      ensures frontendConstant.Some? ==> r == GetFrontendUrl().value
      ensures frontendConstant.None? ==> r == ""
    {
      var front := GetFrontendUrl();
      if front.Some? then front.value else ""
    }

    /**
     * `override_post_links`: it unhooks itself, rewrites the site URL in the
     * post's content to the frontend URL when the content mentions it (the
     * update is slashed, and WordPress unslashes it back), and hooks itself
     * back, so the update it makes does not run it again. For a missing post
     * it returns early and stays unhooked.
     */
    method OverridePostLinks(postId: int)
      modifies site
      ensures postId !in old(site.posts) ==>
        && site.saveHooks == old(site.saveHooks) - {OverridePostLinksHook}
        && site.posts == old(site.posts) && site.writes == old(site.writes)
      ensures postId in old(site.posts) ==>
        var content := old(site.posts)[postId].content;
        var rewritten := IReplace(content, site.siteUrl, FrontendOrEmpty());
        && site.saveHooks == old(site.saveHooks) + {OverridePostLinksHook}
        && site.posts == (if IContains(content, site.siteUrl)
                          then old(site.posts)[postId := old(site.posts)[postId].(content := rewritten)]
                          else old(site.posts))
        && site.writes == old(site.writes)
             + (if IContains(content, site.siteUrl)
                then [PostWrite(postId, Content, rewritten, SavePostFired(old(site.posts)[postId], old(site.saveHooks) - {OverridePostLinksHook}))]
                else [])
      ensures site.meta == old(site.meta)
    {
      site.RemoveSaveHook(OverridePostLinksHook);
      if postId !in site.posts {
        return;
      }
      var content := site.posts[postId].content;
      if IContains(content, site.siteUrl) {
        var rewritten := IReplace(content, site.siteUrl, FrontendOrEmpty());
        UnslashSlash(rewritten);
        site.UpdatePost(postId, Content, Slash(rewritten));
      }
      site.AddSaveHook(OverridePostLinksHook);
    }
  }

  /** The frontend's preview route for a post: "<frontend>/preview/<ID>". */
  function PreviewRoute(frontend: string, postId: int): (r: string)
    ensures |r| > |frontend| + 9 && r[..|frontend|] == frontend && r[|frontend|..|frontend| + 9] == "/preview/"
    ensures postId >= 0 ==> AllDigits(r[|frontend| + 9..]) && DigitsValue(r[|frontend| + 9..]) == postId
  {
    var r := frontend + "/preview/" + IntText(postId);
    assert r[|frontend| + 9..] == IntText(postId);
    r
  }

  /**
   * A link on the site whose remainder does not mention the site URL again
   * moves to the frontend with the same remainder.
   */
  lemma {:induction false} SiteLinkMovesToFrontend(siteUrl: string, rest: string, frontend: string)
    requires siteUrl != "" && !IContains(rest, siteUrl)
    ensures IContains(siteUrl + rest, siteUrl)
    ensures IReplace(siteUrl + rest, siteUrl, frontend) == frontend + rest
  {
    var s := siteUrl + rest;
    assert s[..|siteUrl|] == siteUrl;
    assert IStartsWith(s, siteUrl);
    assert s[|siteUrl|..] == rest;
  }
}
