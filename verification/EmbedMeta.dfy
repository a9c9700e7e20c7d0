/** Metadata lifted from an origin, and the form Redis carries between replicas. */
module EmbedMeta {
  import opened Common

  datatype Icon = Icon(bytes: seq<byte>, mime: string)

  datatype Meta = Meta(title: Option<string>, tags: seq<string>, iconUrl: Option<string>, icon: Option<Icon>)

  /** The serialised half of `Meta`: the icon is split into bytes and type, its URL is dropped. */
  datatype CachedMeta = CachedMeta(
    title: Option<string>, tags: seq<string>, icon: Option<seq<byte>>, iconMime: Option<string>)

  /** The raster types NekoGuard is willing to serve, whatever parameters follow them. */
  function IconMime(contentType: string): Option<string> {
    var ct := Lower(contentType);
    if "image/png" <= ct then Some("image/png")
    else if "image/x-icon" <= ct || "image/vnd.microsoft.icon" <= ct then Some("image/x-icon")
    else if "image/jpeg" <= ct then Some("image/jpeg")
    else if "image/gif" <= ct then Some("image/gif")
    else if "image/webp" <= ct then Some("image/webp")
    else None
  }

  function ToCached(m: Meta): CachedMeta {
    match m.icon
    case Some(icon) => CachedMeta(m.title, m.tags, Some(icon.bytes), Some(icon.mime))
    case None => CachedMeta(m.title, m.tags, None, None)
  }

  function IntoMeta(c: CachedMeta): Meta {
    var icon :=
      if c.icon.None? || c.iconMime.None? then None
      else match IconMime(c.iconMime.value)
           case Some(mime) => Some(Icon(c.icon.value, mime))
           case None => None;
    Meta(c.title, c.tags, None, icon)
  }

  /** What `fetch` can produce: the URL has been taken, and the icon's type came out of `IconMime`. */
  ghost predicate Fetched(m: Meta) {
    && m.iconUrl.None?
    && (m.icon.Some? ==> exists ct :: IconMime(ct) == Some(m.icon.value.mime))
  }

  /** The types in lower case, and what each is served as. */
  const TYPES := ["image/png", "image/x-icon", "image/vnd.microsoft.icon", "image/jpeg", "image/gif", "image/webp"]
  const SERVED := ["image/png", "image/x-icon", "image/x-icon", "image/jpeg", "image/gif", "image/webp"]

  /** No type is the beginning of another. */
  lemma TypesDiffer(ct: string, j: nat, k: nat)
    requires j < 6 && k < 6 && TYPES[j] <= ct && TYPES[k] <= ct
    ensures j == k
  {
    assert ct[6] == TYPES[j][6] == TYPES[k][6] && ct[7] == TYPES[j][7] == TYPES[k][7];
  }

  /** Each raster type, in any case and with any parameters behind it, and no other, is served. */
  lemma IconMimeIs(ct: string, k: nat)
    requires k < 6
    ensures TYPES[k] <= Lower(ct) ==> IconMime(ct) == Some(SERVED[k])
    ensures IconMime(ct).Some? <==> exists j: nat :: j < 6 && TYPES[j] <= Lower(ct)
  {
    var low := Lower(ct);
    assert TYPES[0] == "image/png" && TYPES[1] == "image/x-icon" && TYPES[2] == "image/vnd.microsoft.icon";
    assert TYPES[3] == "image/jpeg" && TYPES[4] == "image/gif" && TYPES[5] == "image/webp";
    if TYPES[k] <= low {
      forall j: nat | j < 6 && TYPES[j] <= low ensures j == k { TypesDiffer(low, j, k); }
    }
  }

  /** A type NekoGuard serves is recognised again when it comes back from Redis. */
  lemma IconMimeFixed(ct: string)
    requires IconMime(ct).Some?
    ensures IconMime(IconMime(ct).value) == IconMime(ct)
  {
    assert Lower("image/png") == "image/png";
    assert Lower("image/x-icon") == "image/x-icon";
    assert Lower("image/jpeg") == "image/jpeg";
    assert Lower("image/gif") == "image/gif";
    assert Lower("image/webp") == "image/webp";
  }

  /** Exactly which metadata survives the trip through Redis. */
  lemma RedisRoundTrip(m: Meta)
    ensures IntoMeta(ToCached(m)) == m <==>
            m.iconUrl.None? && (m.icon.Some? ==> IconMime(m.icon.value.mime) == Some(m.icon.value.mime))
    ensures Fetched(m) ==> IntoMeta(ToCached(m)) == m
  {
    if Fetched(m) && m.icon.Some? {
      var ct :| IconMime(ct) == Some(m.icon.value.mime);
      IconMimeFixed(ct);
    }
  }
}
