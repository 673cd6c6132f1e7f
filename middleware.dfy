/** The request handler returned by `createMiddleware`: it lets through every
    request that is not an image transformation, serves a transformation from the
    disk cache when its record is there and readable, and otherwise asks the image
    engine for it, answering conditional requests with 304 and storing the result
    for later requests. */
module Middleware {
  import opened Wrappers
  import opened JsString
  import opened Modifiers
  import opened UrlParser

  type Byte = b: int | 0 <= b < 256
  type Bytes = seq<Byte>

  /** What the handler reads of a request. `ifModifiedSince` is the header as a
      time in milliseconds; an absent, empty or unparseable header is `None`. */
  datatype Request = Request(url: string, ifNoneMatch: Option<string>, ifModifiedSince: Option<int>)

  /** The plugin configuration: an empty `cacheDir` disables the cache; `maxAge` is
      the default lifetime in seconds (`None` when unset). */
  datatype Config = Config(cacheDir: string, maxAge: Option<int>)

  /** One cache record, `<hash>.raw` with its `.mime` and `.etag` sidecars; a record
      whose `.raw` file exists but whose sidecars cannot be read is `Unreadable`. */
  datatype CacheEntry = Stored(data: Bytes, mime: string, etag: string) | Unreadable

  /** What `img.src()` yields: the source's modification time (milliseconds) and a
      per-asset max-age, each possibly absent. */
  datatype SourceMeta = SourceMeta(mtime: Option<int>, maxAge: Option<int>)

  /** What `img.data()` yields. */
  datatype Image = Image(data: Bytes, format: string)

  /** A failure of the engine; `statusCode` is the text `parseInt` sees, `None`
      when the error has none. */
  datatype IpxError = IpxError(statusCode: Option<string>)

  datatype Outcome<T> = Ok(value: T) | Fail(error: IpxError)

  /** The engine's answer for one (id, modifiers) pair: the outcome of `img.src()`
      and the outcome of `img.data()`. */
  datatype Transform = Transform(src: Outcome<SourceMeta>, image: Outcome<Image>)

  /** The collaborators the handler calls but that are not part of it: the ufo URL
      helpers, `ohash`'s `hash`, the `etag` package and the `ipx` engine. */
  datatype Env = Env(
    codec: Codec,
    hash: (string, Modifiers) -> string,
    etag: Bytes -> string,
    ipx: (string, Modifiers) -> Transform)

  datatype EngineCall = EngineCall(id: string, modifiers: Modifiers)

  /** The response headers the handler sets: `ETag`, `Last-Modified`,
      `Cache-Control` and `Content-Type`. */
  datatype HeaderName = ETag | LastModified | CacheControl | ContentType

  type Headers = map<HeaderName, string>

  const AllowedTypes: seq<string> :=
    ["JPEG", "PNG", "GIF", "SVG", "TIFF", "ICO", "DVU", "JPG", "WEBP", "AVIF"]

  /** `id.split('.').pop()`: the text after the last dot (see
      `ExtensionIsLastPiece`); an id without a dot is its own extension. */
  function Extension(id: string): (ext: string)
    ensures '.' !in ext
    ensures '.' !in id ==> ext == id
  {
    var pieces := Split(id, '.');
    pieces[|pieces| - 1]
  }

  /** The file type check; every listed type has three or four letters, so an
      allowed id has an extension of that length. */
  predicate AllowedType(id: string)
    ensures AllowedType(id) ==> 3 <= |Extension(id)| <= 4
  {
    Upper(Extension(id)) in AllowedTypes
  }

  /** The skip filter: no id, no modifiers, or a file type that is not allowed. */
  predicate Skips(p: ParsedUrl)
    ensures !Skips(p) ==> p.id != "" && p.modifiers.Some? && 3 <= |Extension(p.id)| <= 4
  {
    p.id == "" || p.modifiers.None? || !AllowedType(p.id)
  }

  /** JavaScript truthiness of an optional number. */
  predicate Truthy(n: Option<int>)
  {
    n.Some? && n.value != 0
  }

  function CacheControlValue(maxAge: int): string
  {
    "max-age=" + IntToString(maxAge) + ", public, s-maxage=" + IntToString(maxAge)
  }

  /** Adds the Cache-Control header for a max-age, none when it is falsy. */
  function WithMaxAge(h: Headers, maxAge: Option<int>): Headers
  {
    if Truthy(maxAge) then h[CacheControl := CacheControlValue(maxAge.value)] else h
  }

  /** `src.maxAge ?? config.maxAge`. */
  function EffectiveMaxAge(src: SourceMeta, config: Config): (r: Option<int>)
    ensures src.maxAge.Some? ==> r == src.maxAge
    ensures r.None? <==> src.maxAge.None? && config.maxAge.None?
  {
    if src.maxAge.Some? then src.maxAge else config.maxAge
  }

  /** `parseInt(error.statusCode, 10) || 500`. */
  function ErrorStatus(e: IpxError): (status: int)
    ensures status != 0
    ensures status == 500 || (e.statusCode.Some? && ParseInt(e.statusCode.value) == Some(status))
  {
    var code := if e.statusCode.Some? then ParseInt(e.statusCode.value) else None;
    if Truthy(code) then code.value else 500
  }

  function MimeOf(format: string): string
  {
    "image/" + format
  }

  /** What one request comes to. `next`: control went to the next middleware.
      `engineCall`: the engine was created for this (id, modifiers). `imageRequested`:
      `img.data()` was awaited. `status`, `headers`, `body`: what the handler
      assigned to the response (`None` when it left it alone). `cache`: the cache
      records afterwards. */
  datatype Reply = Reply(
    next: bool,
    engineCall: Option<EngineCall>,
    imageRequested: bool,
    status: Option<int>,
    headers: Headers,
    body: Option<Bytes>,
    cache: map<string, CacheEntry>)

  /** The cache key of a request that is not skipped. */
  function CacheKey(env: Env, p: ParsedUrl): string
    requires p.modifiers.Some?
  {
    env.hash(p.id, p.modifiers.value)
  }

  /** The request is served from a readable cache record. */
  predicate IsHit(config: Config, files: map<string, CacheEntry>, key: string)
  {
    config.cacheDir != "" && key in files && files[key].Stored?
  }

  /** The headers of a full answer from a cache record: the stored ETag,
      Cache-Control for a truthy configured max-age, and the stored MIME type as
      Content-Type when it is not empty. */
  function CachedHeaders(config: Config, mime: string, etag: string): Headers
  {
    var h := WithMaxAge(map[ETag := etag], config.maxAge);
    if mime != "" then h[ContentType := mime] else h
  }

  /** Answer from a readable cache record. */
  function FromCache(config: Config, req: Request, entry: CacheEntry, files: map<string, CacheEntry>): (r: Reply)
    requires entry.Stored?
    ensures !r.next && r.engineCall.None? && !r.imageRequested && r.cache == files
    ensures ETag in r.headers && r.headers[ETag] == entry.etag
    ensures r.body.Some? <==> r.status.None?
    ensures r.body.Some? ==> r.body.value == entry.data
  {
    if entry.etag != "" && req.ifNoneMatch == Some(entry.etag) then
      Reply(false, None, false, Some(304), map[ETag := entry.etag], None, files)
    else
      Reply(false, None, false, None, CachedHeaders(config, entry.mime, entry.etag), Some(entry.data), files)
  }

  /** The headers set from the source metadata: Last-Modified when there is a
      modification time, Cache-Control for a truthy effective max-age. */
  function SourceHeaders(src: SourceMeta, config: Config): Headers
  {
    var lastModified := if src.mtime.Some? then map[LastModified := IntToString(src.mtime.value)] else map[];
    WithMaxAge(lastModified, EffectiveMaxAge(src, config))
  }

  /** Answer from the engine; the record is written under `key` when the cache is
      on and the write succeeds (`written`). */
  function FromEngine(config: Config, env: Env, req: Request, id: string, m: Modifiers, key: string,
                      files: map<string, CacheEntry>, written: bool): (r: Reply)
    ensures !r.next && r.engineCall == Some(EngineCall(id, m))
    ensures r.imageRequested ==> env.ipx(id, m).src.Ok?
    ensures r.cache - {key} == files - {key}
  {
    var t := env.ipx(id, m);
    var call := Some(EngineCall(id, m));
    match t.src
    case Fail(e) => Reply(false, call, false, Some(ErrorStatus(e)), map[], None, files)
    case Ok(src) =>
      if src.mtime.Some? && req.ifModifiedSince.Some? && req.ifModifiedSince.value >= src.mtime.value then
        Reply(false, call, false, Some(304), map[], None, files)
      else
        FromImage(config, env, req, call, SourceHeaders(src, config), t.image, key, files, written)
  }

  /** The second stage of a miss, once `meta` (Last-Modified, Cache-Control) is set:
      the outcome of `img.data()`. */
  function FromImage(config: Config, env: Env, req: Request, call: Option<EngineCall>, meta: Headers,
                     image: Outcome<Image>, key: string, files: map<string, CacheEntry>, written: bool): (r: Reply)
    ensures !r.next && r.engineCall == call && r.imageRequested
    ensures r.cache - {key} == files - {key}
    ensures image.Fail? ==> r.status == Some(ErrorStatus(image.error)) && r.body.None? && r.cache == files
    ensures image.Ok? ==> ETag in r.headers && r.headers[ETag] == env.etag(image.value.data)
  {
    match image
    case Fail(e) => Reply(false, call, true, Some(ErrorStatus(e)), meta, None, files)
    case Ok(img) =>
      var etag := env.etag(img.data);
      var files' := if config.cacheDir != "" && written
                    then files[key := Stored(img.data, MimeOf(img.format), etag)] else files;
      FreshAnswer(req, call, meta, img, etag, files')
  }

  /** The answer with a transformed image and its ETag: 304 on a matching
      non-empty `If-None-Match`, else the data with its Content-Type. */
  function FreshAnswer(req: Request, call: Option<EngineCall>, meta: Headers, img: Image, etag: string,
                       files: map<string, CacheEntry>): (r: Reply)
    ensures !r.next && r.engineCall == call && r.imageRequested && r.cache == files
    ensures ETag in r.headers && r.headers[ETag] == etag
    ensures forall h :: h in meta && h != ETag && h != ContentType ==> h in r.headers && r.headers[h] == meta[h]
    ensures r.body.Some? <==> r.status.None?
    ensures r.body.Some? ==> r.body.value == img.data
    ensures r.status.Some? ==> r.status == Some(304) && req.ifNoneMatch == Some(etag)
  {
    var headers := meta[ETag := etag];
    if etag != "" && req.ifNoneMatch == Some(etag) then
      Reply(false, call, true, Some(304), headers, None, files)
    else
      var headers' := if img.format != "" then headers[ContentType := MimeOf(img.format)] else headers;
      Reply(false, call, true, None, headers', Some(img.data), files)
  }

  /** The whole handler on one request. */
  function Serve(config: Config, env: Env, req: Request, files: map<string, CacheEntry>, written: bool): (r: Reply)
    ensures r.next ==> r.cache == files
    ensures !r.next ==> var p := Parse(req.url, env.codec);
      p.modifiers.Some? && r.cache - {CacheKey(env, p)} == files - {CacheKey(env, p)}
  {
    Dispatch(config, env, req, Parse(req.url, env.codec), files, written)
  }

  /** The handler once the URL is parsed: skip, or serve the image. */
  function Dispatch(config: Config, env: Env, req: Request, p: ParsedUrl, files: map<string, CacheEntry>,
                    written: bool): (r: Reply)
    ensures r.next <==> Skips(p)
    ensures r.next ==> r.cache == files
    ensures !r.next ==> r.cache - {CacheKey(env, p)} == files - {CacheKey(env, p)}
  {
    if Skips(p) then Reply(true, None, false, None, map[], None, files)
    else Lookup(config, env, req, p.id, p.modifiers.value, files, written)
  }

  /** Serving an image: from its cache record on a hit, else from the engine. */
  function Lookup(config: Config, env: Env, req: Request, id: string, m: Modifiers,
                  files: map<string, CacheEntry>, written: bool): (r: Reply)
    ensures !r.next
    ensures r.engineCall.None? <==> IsHit(config, files, env.hash(id, m))
    ensures r.cache - {env.hash(id, m)} == files - {env.hash(id, m)}
  {
    var key := env.hash(id, m);
    if IsHit(config, files, key) then FromCache(config, req, files[key], files)
    else FromEngine(config, env, req, id, m, key, files, written)
  }

  /** Adding no header leaves the headers as they are. */
  lemma NothingAdded(h: Headers)
    ensures h + map[] == h
  {
  }

  /** Setting a header on top of earlier ones is adding it to what was added. */
  lemma SetOnTop(base: Headers, added: Headers, name: HeaderName, value: string)
    ensures (base + added)[name := value] == base + added[name := value]
  {
  }

  // ---------------------------------------------------------------------------
  // The mutable objects: the Koa context and the cache directory

  /** The framework's context for one request: the request, and the response the
      handler fills in (status and body stay `None` until assigned). */
  class Context {
    const req: Request
    var status: Option<int>
    var headers: Headers
    var body: Option<Bytes>

    constructor (req: Request)
      ensures this.req == req && status == None && headers == map[] && body == None
    {
      this.req := req;
      status := None;
      headers := map[];
      body := None;
    }

    /** `ctx.set(name, value)`. */
    method Set(name: HeaderName, value: string)
      modifies this
      ensures headers == old(headers)[name := value]
      ensures status == old(status) && body == old(body)
    {
      headers := headers[name := value];
    }
  }

  /** The cache directory: the records by hash key. */
  class DiskCache {
    var files: map<string, CacheEntry>

    constructor (files: map<string, CacheEntry>)
      ensures this.files == files
    {
      this.files := files;
    }

    /** `existsSync(<key>.raw)`. */
    method Exists(key: string) returns (found: bool)
      ensures found <==> key in files
    {
      found := key in files;
    }

    /** Reading the `.mime` and `.etag` sidecars; `None` when that fails. */
    method ReadSidecars(key: string) returns (r: Option<(string, string)>)
      requires key in files
      ensures r.Some? <==> files[key].Stored?
      ensures r.Some? ==> r.value == (files[key].mime, files[key].etag)
    {
      match files[key]
      case Stored(_, mime, etag) => r := Some((mime, etag));
      case Unreadable => r := None;
    }

    /** `createReadStream(<key>.raw)`, as the bytes it streams. */
    method ReadRaw(key: string) returns (data: Bytes)
      requires key in files && files[key].Stored?
      ensures data == files[key].data
    {
      data := files[key].data;
    }

    /** Writing the three files of a record; `ok` says whether the writes
        succeeded. A failed write leaves the records as they were. */
    method Write(key: string, mime: string, etag: string, data: Bytes, ok: bool)
      modifies this
      ensures files == if ok then old(files)[key := Stored(data, mime, etag)] else old(files)
    {
      if ok {
        files := files[key := Stored(data, mime, etag)];
      }
    }
  }

  /** `createMiddleware(ipx)`: the handler closes over the plugin configuration
      and its collaborators. */
  class Handler {
    const config: Config
    const env: Env

    constructor (config: Config, env: Env)
      ensures this.config == config && this.env == env
    {
      this.config := config;
      this.env := env;
    }

    /** `ipxMiddleware(ctx, next)`. `written` says whether the background cache
        writes, if any are started, succeed. Returns whether `next()` was called,
        the engine call made, and whether `img.data()` was awaited. */
    method Handle(ctx: Context, cache: DiskCache, written: bool)
      returns (next: bool, call: Option<EngineCall>, imageRequested: bool)
      modifies ctx, cache
      ensures var r := Serve(config, env, ctx.req, old(cache.files), written);
        && next == r.next && call == r.engineCall && imageRequested == r.imageRequested
        && ctx.status == (if r.status.Some? then r.status else old(ctx.status))
        && ctx.headers == old(ctx.headers) + r.headers
        && ctx.body == (if r.body.Some? then r.body else old(ctx.body))
        && cache.files == r.cache
    {
      var parsed := ParseImageUrl(ctx.req.url, env.codec);
      next, call, imageRequested := Respond(ctx, cache, parsed, written);
    }

    /** The handler once the URL is parsed: let the request through, answer from
        the cache, or go to the engine. */
    method Respond(ctx: Context, cache: DiskCache, parsed: ParsedUrl, written: bool)
      returns (next: bool, call: Option<EngineCall>, imageRequested: bool)
      modifies ctx, cache
      ensures var r := Dispatch(config, env, ctx.req, parsed, old(cache.files), written);
        && next == r.next && call == r.engineCall && imageRequested == r.imageRequested
        && ctx.status == (if r.status.Some? then r.status else old(ctx.status))
        && ctx.headers == old(ctx.headers) + r.headers
        && ctx.body == (if r.body.Some? then r.body else old(ctx.body))
        && cache.files == r.cache
    {
      next, call, imageRequested := false, None, false;
      if parsed.id == "" || parsed.modifiers.None? || Upper(Extension(parsed.id)) !in AllowedTypes {
        next := true;
        NothingAdded(ctx.headers);
        return;
      }
      call, imageRequested := ServeImage(ctx, cache, parsed.id, parsed.modifiers.value, written);
    }

    /** An image request that is not let through: look up the cache by the hash
        of (id, modifiers), answer from a readable record, else transform. */
    method ServeImage(ctx: Context, cache: DiskCache, id: string, modifiers: Modifiers, written: bool)
      returns (call: Option<EngineCall>, imageRequested: bool)
      modifies ctx, cache
      ensures var r := Lookup(config, env, ctx.req, id, modifiers, old(cache.files), written);
        && call == r.engineCall && imageRequested == r.imageRequested
        && ctx.status == (if r.status.Some? then r.status else old(ctx.status))
        && ctx.headers == old(ctx.headers) + r.headers
        && ctx.body == (if r.body.Some? then r.body else old(ctx.body))
        && cache.files == r.cache
    {
      call, imageRequested := None, false;
      var objectHash := env.hash(id, modifiers);

      if config.cacheDir != "" {
        var found := cache.Exists(objectHash);
        if found {
          var sidecars := cache.ReadSidecars(objectHash);
          if sidecars.Some? {
            var data := cache.ReadRaw(objectHash);
            assert cache.files[objectHash] == Stored(data, sidecars.value.0, sidecars.value.1);
            ServeCached(ctx, sidecars.value.0, sidecars.value.1, data, cache.files);
            return;
          }
        }
      }
      call, imageRequested := Transform(ctx, cache, id, modifiers, objectHash, written);
    }

    /** The cache-hit branch: answer from a record's sidecars and bytes. */
    method ServeCached(ctx: Context, mime: string, etag: string, data: Bytes, ghost files: map<string, CacheEntry>)
      modifies ctx
      ensures var r := FromCache(config, ctx.req, Stored(data, mime, etag), files);
        && ctx.status == (if r.status.Some? then r.status else old(ctx.status))
        && ctx.headers == old(ctx.headers) + r.headers
        && ctx.body == (if r.body.Some? then r.body else old(ctx.body))
    {
      SetOnTop(ctx.headers, map[], ETag, etag);
      ctx.Set(ETag, etag);
      if etag != "" && ctx.req.ifNoneMatch == Some(etag) {
        ctx.status := Some(304);
        return;
      }
      SendCached(ctx, old(ctx.headers), mime, etag, data);
    }

    /** The full answer from a record, once its ETag is set: Cache-Control,
        Content-Type and the body. */
    method SendCached(ctx: Context, ghost base: Headers, mime: string, ghost etag: string, data: Bytes)
      requires ctx.headers == base + map[ETag := etag]
      modifies ctx
      ensures ctx.headers == base + CachedHeaders(config, mime, etag)
      ensures ctx.status == old(ctx.status) && ctx.body == Some(data)
    {
      ghost var added: Headers := map[ETag := etag];
      if Truthy(config.maxAge) {
        SetOnTop(base, added, CacheControl, CacheControlValue(config.maxAge.value));
        ctx.Set(CacheControl, CacheControlValue(config.maxAge.value));
        added := added[CacheControl := CacheControlValue(config.maxAge.value)];
      }
      if mime != "" {
        SetOnTop(base, added, ContentType, mime);
        ctx.Set(ContentType, mime);
      }
      ctx.body := Some(data);
    }

    /** The cache-miss branch: create the engine request and await its source
        metadata. */
    method Transform(ctx: Context, cache: DiskCache, id: string, modifiers: Modifiers, key: string, written: bool)
      returns (call: Option<EngineCall>, imageRequested: bool)
      modifies ctx, cache
      ensures var r := FromEngine(config, env, ctx.req, id, modifiers, key, old(cache.files), written);
        && call == r.engineCall && imageRequested == r.imageRequested
        && ctx.status == (if r.status.Some? then r.status else old(ctx.status))
        && ctx.headers == old(ctx.headers) + r.headers
        && ctx.body == (if r.body.Some? then r.body else old(ctx.body))
        && cache.files == r.cache
    {
      var img := env.ipx(id, modifiers);
      call := Some(EngineCall(id, modifiers));
      imageRequested := false;

      if img.src.Fail? {
        ctx.status := Some(ErrorStatus(img.src.error));
        return;
      }
      var src := img.src.value;
      if src.mtime.Some? && ctx.req.ifModifiedSince.Some? && ctx.req.ifModifiedSince.value >= src.mtime.value {
        ctx.status := Some(304);
        return;
      }
      SetSourceHeaders(ctx, src);
      imageRequested := true;
      Deliver(ctx, cache, call, old(ctx.headers), SourceHeaders(src, config), img.image, key, written);
    }

    /** Setting Last-Modified and Cache-Control from the source metadata. */
    method SetSourceHeaders(ctx: Context, src: SourceMeta)
      modifies ctx
      ensures ctx.headers == old(ctx.headers) + SourceHeaders(src, config)
      ensures ctx.status == old(ctx.status) && ctx.body == old(ctx.body)
    {
      ghost var added: Headers := map[];
      assert ctx.headers == old(ctx.headers) + added;
      if src.mtime.Some? {
        SetOnTop(old(ctx.headers), added, LastModified, IntToString(src.mtime.value));
        ctx.Set(LastModified, IntToString(src.mtime.value));
        added := added[LastModified := IntToString(src.mtime.value)];
      }
      var maxAge := if src.maxAge.Some? then src.maxAge else config.maxAge;
      if Truthy(maxAge) {
        SetOnTop(old(ctx.headers), added, CacheControl, CacheControlValue(maxAge.value));
        ctx.Set(CacheControl, CacheControlValue(maxAge.value));
      }
    }

    /** The second stage of a miss: await the data, start the cache write, set the
        ETag and answer. `base + meta` are the headers set so far. */
    method Deliver(ctx: Context, cache: DiskCache, call: Option<EngineCall>, ghost base: Headers, ghost meta: Headers,
                   image: Outcome<Image>, key: string, written: bool)
      requires ctx.headers == base + meta
      modifies ctx, cache
      ensures var r := FromImage(config, env, ctx.req, call, meta, image, key, old(cache.files), written);
        && ctx.status == (if r.status.Some? then r.status else old(ctx.status))
        && ctx.headers == base + r.headers
        && ctx.body == (if r.body.Some? then r.body else old(ctx.body))
        && cache.files == r.cache
    {
      if image.Fail? {
        ctx.status := Some(ErrorStatus(image.error));
        return;
      }
      var data, format := image.value.data, image.value.format;
      var etag := env.etag(data);

      if config.cacheDir != "" {
        cache.Write(key, MimeOf(format), etag, data, written);
      }
      SendFresh(ctx, base, meta, Image(data, format), etag, call, cache.files);
    }

    /** Set the ETag, then answer 304 or send the data with its Content-Type. */
    method SendFresh(ctx: Context, ghost base: Headers, ghost meta: Headers, img: Image, etag: string,
                     ghost call: Option<EngineCall>, ghost files: map<string, CacheEntry>)
      requires ctx.headers == base + meta
      modifies ctx
      ensures var r := FreshAnswer(ctx.req, call, meta, img, etag, files);
        && ctx.status == (if r.status.Some? then r.status else old(ctx.status))
        && ctx.headers == base + r.headers
        && ctx.body == (if r.body.Some? then r.body else old(ctx.body))
    {
      SetOnTop(base, meta, ETag, etag);
      ctx.Set(ETag, etag);
      ghost var added := meta[ETag := etag];
      if etag != "" && ctx.req.ifNoneMatch == Some(etag) {
        ctx.status := Some(304);
        return;
      }
      if img.format != "" {
        SetOnTop(base, added, ContentType, MimeOf(img.format));
        ctx.Set(ContentType, MimeOf(img.format));
      }
      ctx.body := Some(img.data);
    }
  }
}
