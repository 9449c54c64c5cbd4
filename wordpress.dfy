/**
 * The slice of WordPress the plugins read and write: attachment posts,
 * post meta, and the callbacks registered on the `save_post` action.
 */
module WordPress {
  import opened PhpCore
  import opened PhpStrings

  /** A post-meta value: a string, or an array of strings (stored serialized). */
  datatype MetaValue = Text(s: string) | Fields(fields: map<string, string>)

  /**
   * What the plugins read of a post: its `post_type` and `post_mime_type`
   * columns, the title as `get_the_title` returns it, and its excerpt and
   * content columns.
   */
  datatype Post = Post(postType: string, mimeType: string, title: string, excerpt: string, content: string)

  datatype PostField = Excerpt | Content

  /**
   * One change to the store, as `update_post_meta` or `wp_update_post` makes
   * it; a post update also records the `save_post` callbacks it fires
   * (see `SavePostFired`).
   */
  datatype Write =
    | MetaWrite(id: int, key: string, value: MetaValue)
    | PostWrite(id: int, field: PostField, text: string, fires: set<string>)

  const AltTextKey := "_wp_attachment_image_alt"
  const ExtendedMetaKey := "extended_image_meta"

  /** `empty()` of a value read back by `get_post_meta( $id, $key, true )`. */
  predicate EmptyMeta(v: MetaValue) {
    match v
    case Text(s) => Falsy(s)
    case Fields(m) => m == map[]
  }

  /**
   * The `save_post` callbacks that `wp_update_post` fires for `p` when
   * `hooks` are registered. `wp_insert_post` updates an attachment through
   * its own branch, which fires `edit_attachment` and `attachment_updated`
   * and returns before `save_post`.
   */
  function SavePostFired(p: Post, hooks: set<string>): set<string> {
    if p.postType == "attachment" then {} else hooks
  }

  /** `wp_unslash` of a meta value: the string, or every value of the array, unslashed. */
  function UnslashMeta(v: MetaValue): MetaValue {
    match v
    case Text(s) => Text(Unslash(s))
    case Fields(m) => Fields(map k | k in m :: Unslash(m[k]))
  }

  function WithField(p: Post, field: PostField, value: string): Post {
    match field
    case Excerpt => p.(excerpt := value)
    case Content => p.(content := value)
  }

  class Site {
    var meta: map<(int, string), MetaValue>
    var posts: map<int, Post>
    /** The callbacks currently hooked to `save_post`, by name. */
    var saveHooks: set<string>
    /** `get_site_url()`. */
    const siteUrl: string
    /** Every change made to `meta` and `posts`, oldest first. */
    ghost var writes: seq<Write>

    constructor (siteUrl: string, posts: map<int, Post>, meta: map<(int, string), MetaValue>)
      ensures this.siteUrl == siteUrl && this.posts == posts && this.meta == meta
      ensures saveHooks == {} && writes == []
    {
      this.siteUrl := siteUrl;
      this.posts := posts;
      this.meta := meta;
      saveHooks := {};
      writes := [];
    }

    /** `get_post_mime_type( $id )`; a missing post reads as "". */
    function MimeType(id: int): string
      reads this
    {
      if id in posts then posts[id].mimeType else ""
    }

    /** `empty( get_post_meta( $id, $key, true ) )`; a missing key reads as "". */
    predicate MetaIsEmpty(id: int, key: string)
      reads this
    {
      (id, key) !in meta || EmptyMeta(meta[(id, key)])
    }

    /** `get_post_field( 'post_excerpt', $id )`. */
    function Excerpt(id: int): string
      reads this
    {
      if id in posts then posts[id].excerpt else ""
    }

    /** `get_the_title( $id )`. */
    function Title(id: int): string
      reads this
    {
      if id in posts then posts[id].title else ""
    }

    /**
     * `update_post_meta( $id, $key, $value )`. WordPress unslashes the value
     * before storing it, so what is stored is `wp_unslash( $value )`.
     */
    method UpdatePostMeta(id: int, key: string, value: MetaValue)
      modifies this
      ensures meta == old(meta)[(id, key) := UnslashMeta(value)]
      ensures posts == old(posts) && saveHooks == old(saveHooks)
      ensures writes == old(writes) + [MetaWrite(id, key, UnslashMeta(value))]
    {
      var stored := UnslashMeta(value);
      meta := meta[(id, key) := stored];
      writes := writes + [MetaWrite(id, key, stored)];
    }

    /**
     * `wp_update_post` with one column set. An unknown ID is refused and
     * changes nothing. As for meta, the column is stored unslashed. The
     * `save_post` callbacks it fires (none for an attachment) are recorded,
     * not run.
     */
    method UpdatePost(id: int, field: PostField, value: string)
      modifies this
      ensures id in old(posts) ==> posts == old(posts)[id := WithField(old(posts)[id], field, Unslash(value))]
      ensures id in old(posts) ==> writes == old(writes) + [PostWrite(id, field, Unslash(value), SavePostFired(old(posts)[id], old(saveHooks)))]
      ensures id !in old(posts) ==> posts == old(posts) && writes == old(writes)
      ensures meta == old(meta) && saveHooks == old(saveHooks)
    {
      if id in posts {
        var stored := Unslash(value);
        var fired := SavePostFired(posts[id], saveHooks);
        posts := posts[id := WithField(posts[id], field, stored)];
        writes := writes + [PostWrite(id, field, stored, fired)];
      }
    }

    /** `add_action( 'save_post', $callback )`. */
    method AddSaveHook(callback: string)
      modifies this
      ensures saveHooks == old(saveHooks) + {callback}
      ensures meta == old(meta) && posts == old(posts) && writes == old(writes)
    {
      saveHooks := saveHooks + {callback};
    }

    /** `remove_action( 'save_post', $callback )`. */
    method RemoveSaveHook(callback: string)
      modifies this
      ensures saveHooks == old(saveHooks) - {callback}
      ensures meta == old(meta) && posts == old(posts) && writes == old(writes)
    {
      saveHooks := saveHooks - {callback};
    }
  }
}
