/** What the request handler guarantees, stated over `Dispatch`, the part of its
    specification `Serve` that follows URL parsing:
    when it lets a request through, what a cache hit answers, the conditional 304s,
    the max-age precedence, the cache write and the error statuses, and that the
    cache stays coherent with the engine. */
module HandlerProperties {
  import opened Wrappers
  import opened JsString
  import opened Modifiers
  import opened UrlParser
  import opened Middleware

  /** The handler calls `next()` exactly when the id is empty, the modifiers are
      `null` or the file type is not allowed, and then it touches nothing: no
      engine, no cache, no response. */
  lemma PassThroughExactly(config: Config, env: Env, req: Request, p: ParsedUrl,
                           files: map<string, CacheEntry>, written: bool)
    ensures var r := Dispatch(config, env, req, p, files, written);
      && (r.next <==> p.id == "" || p.modifiers.None? || !AllowedType(p.id))
      && (r.next ==> && r.engineCall.None? && !r.imageRequested && r.cache == files
                     && r.status.None? && r.headers == map[] && r.body.None?)
  {
  }

  /** The ten listed types are written in upper-case letters. */
  lemma AllowedTypesUpper(i: nat)
    requires i < |AllowedTypes|
    ensures UpperLetters(AllowedTypes[i])
  {
  }

  /** The id's extension is the text after its last `.`, or the whole id when it
      has none. */
  lemma ExtensionIsLastPiece(id: string)
    ensures var ext := Extension(id);
      && '.' !in ext && |ext| <= |id| && id[|id| - |ext|..] == ext
      && (|ext| < |id| ==> id[|id| - |ext| - 1] == '.')
  {
    LastPiece(id, '.');
  }

  /** The file-type check: the extension is allowed exactly when it equals one of
      the ten listed types up to letter case. */
  lemma AllowedTypeIgnoresCase(id: string)
    ensures AllowedType(id) <==> exists t :: t in AllowedTypes && EqualsIgnoringCase(Extension(id), t)
  {
    var ext := Extension(id);
    forall i | 0 <= i < |AllowedTypes|
      ensures Upper(ext) == AllowedTypes[i] <==> EqualsIgnoringCase(ext, AllowedTypes[i])
    {
      AllowedTypesUpper(i);
      UpperMatchesIgnoringCase(ext, AllowedTypes[i]);
    }
    if AllowedType(id) {
      var i :| 0 <= i < |AllowedTypes| && AllowedTypes[i] == Upper(ext);
      assert EqualsIgnoringCase(ext, AllowedTypes[i]);
    }
    if exists t :: t in AllowedTypes && EqualsIgnoringCase(ext, t) {
      var t :| t in AllowedTypes && EqualsIgnoringCase(ext, t);
      var i :| 0 <= i < |AllowedTypes| && AllowedTypes[i] == t;
      assert Upper(ext) == t;
    }
  }

  /** A cache hit never reaches the engine and never changes the cache; it always
      sends the stored ETag. A matching non-empty `If-None-Match` gives 304 with no
      body; otherwise the body is the stored bytes, Cache-Control comes from the
      configured max-age alone (none when it is falsy), Content-Type is the stored
      MIME type when it is not empty, and no Last-Modified is sent. */
  lemma CacheHitServesRecord(config: Config, env: Env, req: Request, files: map<string, CacheEntry>,
                             written: bool, p: ParsedUrl)
    requires !Skips(p)
    requires IsHit(config, files, CacheKey(env, p))
    ensures var r := Dispatch(config, env, req, p, files, written);
      var e := files[CacheKey(env, p)];
      && !r.next && r.engineCall.None? && !r.imageRequested && r.cache == files
      && ETag in r.headers && r.headers[ETag] == e.etag
      && (e.etag != "" && req.ifNoneMatch == Some(e.etag) ==>
            r.status == Some(304) && r.body.None? && r.headers == map[ETag := e.etag])
      && (!(e.etag != "" && req.ifNoneMatch == Some(e.etag)) ==>
            && r.status.None? && r.body == Some(e.data)
            && LastModified !in r.headers
            && (CacheControl in r.headers <==> Truthy(config.maxAge))
            && (Truthy(config.maxAge) ==> r.headers[CacheControl] == CacheControlValue(config.maxAge.value))
            && (ContentType in r.headers <==> e.mime != "")
            && (e.mime != "" ==> r.headers[ContentType] == e.mime))
  {
  }

  /** Every request that is neither let through nor a cache hit creates the engine
      request for its own id and modifiers; a record whose sidecars cannot be read,
      a missing record and a disabled cache all lead here. */
  lemma MissInvokesEngine(config: Config, env: Env, req: Request, files: map<string, CacheEntry>,
                          written: bool, p: ParsedUrl)
    requires !Skips(p)
    requires !IsHit(config, files, CacheKey(env, p))
    ensures var r := Dispatch(config, env, req, p, files, written);
      !r.next && r.engineCall == Some(EngineCall(p.id, p.modifiers.value))
  {
  }

  /** On a miss, a source modification time not later than `If-Modified-Since`
      gives 304 before the data is requested: no header, no body, no cache write. */
  lemma NotModifiedSince(config: Config, env: Env, req: Request, files: map<string, CacheEntry>,
                         written: bool, p: ParsedUrl, src: SourceMeta)
    requires !Skips(p)
    requires !IsHit(config, files, CacheKey(env, p))
    requires env.ipx(p.id, p.modifiers.value).src == Ok(src)
    requires src.mtime.Some? && req.ifModifiedSince.Some? && req.ifModifiedSince.value >= src.mtime.value
    ensures var r := Dispatch(config, env, req, p, files, written);
      && r.status == Some(304) && r.headers == map[] && r.body.None?
      && !r.imageRequested && r.cache == files
  {
  }

  /** The headers taken from the source metadata: Last-Modified exactly when the
      source has a modification time; Cache-Control from the per-asset max-age
      whenever the source gives one, even 0 (which then suppresses the header),
      and from the configured one otherwise. */
  lemma SourceHeadersSpec(src: SourceMeta, config: Config)
    ensures var h := SourceHeaders(src, config);
      var chosen := if src.maxAge.Some? then src.maxAge.value else config.maxAge.GetOr(0);
      && (LastModified in h <==> src.mtime.Some?)
      && (src.mtime.Some? ==> h[LastModified] == IntToString(src.mtime.value))
      && (CacheControl in h <==> chosen != 0)
      && (chosen != 0 ==> h[CacheControl] == CacheControlValue(chosen))
      && ETag !in h && ContentType !in h
  {
  }

  /** On a miss that reaches the data: the metadata headers above, and the ETag
      computed from the data. A matching non-empty `If-None-Match` then gives 304
      with no body; otherwise the body is the data and Content-Type is
      `image/<format>` when the format is not empty. */
  lemma FreshResponse(config: Config, env: Env, req: Request, files: map<string, CacheEntry>,
                      written: bool, p: ParsedUrl, src: SourceMeta, img: Image)
    requires !Skips(p)
    requires !IsHit(config, files, CacheKey(env, p))
    requires env.ipx(p.id, p.modifiers.value) == Transform(Ok(src), Ok(img))
    requires !(src.mtime.Some? && req.ifModifiedSince.Some? && req.ifModifiedSince.value >= src.mtime.value)
    ensures var r := Dispatch(config, env, req, p, files, written);
      var etag := env.etag(img.data);
      var meta := SourceHeaders(src, config);
      && r.imageRequested
      && (etag != "" && req.ifNoneMatch == Some(etag) ==>
            r.status == Some(304) && r.body.None? && r.headers == meta[ETag := etag])
      && (!(etag != "" && req.ifNoneMatch == Some(etag)) ==>
            && r.status.None? && r.body == Some(img.data)
            && r.headers == (if img.format != "" then meta[ETag := etag][ContentType := MimeOf(img.format)]
                             else meta[ETag := etag]))
  {
    var call := Some(EngineCall(p.id, p.modifiers.value));
    assert Dispatch(config, env, req, p, files, written)
        == FromImage(config, env, req, call, SourceHeaders(src, config), Ok(img), CacheKey(env, p), files, written);
  }

  /** The cache changes only on a miss whose data was obtained, and then exactly
      when the cache is on and the write succeeds: the record under the request's
      hash becomes `image/<format>`, the ETag and the bytes. This holds also when
      the answer is an ETag 304. */
  lemma CacheWrite(config: Config, env: Env, req: Request, files: map<string, CacheEntry>,
                   written: bool, p: ParsedUrl)
    ensures var r := Dispatch(config, env, req, p, files, written);
      var obtained := && !Skips(p) && !IsHit(config, files, CacheKey(env, p))
                   && r.imageRequested && env.ipx(p.id, p.modifiers.value).image.Ok?;
      && (!obtained || config.cacheDir == "" || !written ==> r.cache == files)
      && (obtained && config.cacheDir != "" && written ==>
            var img := env.ipx(p.id, p.modifiers.value).image.value;
            r.cache == files[CacheKey(env, p) := Stored(img.data, MimeOf(img.format), env.etag(img.data))])
  {
  }

  /** Whether the background cache write succeeds never changes the answer. */
  lemma WriteOutcomeInvisible(config: Config, env: Env, req: Request, p: ParsedUrl, files: map<string, CacheEntry>)
    ensures var ok, failed := Dispatch(config, env, req, p, files, true), Dispatch(config, env, req, p, files, false);
      && ok.next == failed.next && ok.engineCall == failed.engineCall && ok.imageRequested == failed.imageRequested
      && ok.status == failed.status && ok.headers == failed.headers && ok.body == failed.body
  {
  }

  /** A failure of `img.src()` answers with the error's status and nothing else; a
      failure of `img.data()` answers with the error's status, keeping the
      Last-Modified and Cache-Control already set; neither writes the cache. */
  lemma EngineFailure(config: Config, env: Env, req: Request, files: map<string, CacheEntry>,
                      written: bool, p: ParsedUrl)
    requires !Skips(p)
    requires !IsHit(config, files, CacheKey(env, p))
    ensures var r := Dispatch(config, env, req, p, files, written);
      var t := env.ipx(p.id, p.modifiers.value);
      && (t.src.Fail? ==>
            && r.status == Some(ErrorStatus(t.src.error)) && r.headers == map[] && r.body.None?
            && !r.imageRequested && r.cache == files)
      && (t.src.Ok? && r.imageRequested && t.image.Fail? ==>
            && r.status == Some(ErrorStatus(t.image.error)) && r.body.None? && r.cache == files
            && r.headers == SourceHeaders(t.src.value, config)
            && ETag !in r.headers && ContentType !in r.headers)
  {
    var t := env.ipx(p.id, p.modifiers.value);
    if t.src.Ok? {
      SourceHeadersSpec(t.src.value, config);
    }
  }

  /** The error status is the error's numeric status code when it has a non-zero
      one, and 500 when it has none, or zero. */
  lemma ErrorStatusOfCode(n: int)
    ensures ErrorStatus(IpxError(Some(IntToString(n)))) == if n != 0 then n else 500
    ensures ErrorStatus(IpxError(None)) == 500
  {
    ParseIntToString(n);
  }

  // ---------------------------------------------------------------------------
  // Cache coherence

  /** The record is what the engine yields for (id, m). */
  ghost predicate Produced(env: Env, id: string, m: Modifiers, e: CacheEntry)
  {
    var image := env.ipx(id, m).image;
    image.Ok? && e == Stored(image.value.data, MimeOf(image.value.format), env.etag(image.value.data))
  }

  /** Every readable record is the engine's output for some (id, modifiers) whose
      hash is the record's key. */
  ghost predicate Coherent(env: Env, files: map<string, CacheEntry>)
  {
    forall key :: key in files && files[key].Stored? ==>
      exists id, m :: env.hash(id, m) == key && Produced(env, id, m, files[key])
  }

  /** The handler keeps the cache coherent. */
  lemma DispatchKeepsCoherent(config: Config, env: Env, req: Request, p: ParsedUrl,
                              files: map<string, CacheEntry>, written: bool)
    requires Coherent(env, files)
    ensures Coherent(env, Dispatch(config, env, req, p, files, written).cache)
  {
    var r := Dispatch(config, env, req, p, files, written);
    CacheWrite(config, env, req, files, written, p);
    if r.cache != files {
      var key := CacheKey(env, p);
      assert Produced(env, p.id, p.modifiers.value, r.cache[key]);
      forall k | k in r.cache && r.cache[k].Stored?
        ensures exists id, m :: env.hash(id, m) == k && Produced(env, id, m, r.cache[k])
      {
        if k != key {
          assert r.cache[k] == files[k];
        }
      }
    }
  }

  /** With a coherent cache and no other (id, modifiers) hashing to the request's
      key, a hit answers as the engine would: the body is the engine's data, the
      ETag is computed from it, and Content-Type is `image/<format>`. */
  lemma HitMatchesEngine(config: Config, env: Env, req: Request, files: map<string, CacheEntry>,
                         written: bool, p: ParsedUrl)
    requires !Skips(p)
    requires IsHit(config, files, CacheKey(env, p))
    requires Coherent(env, files)
    requires forall id, m :: env.hash(id, m) == CacheKey(env, p) ==> id == p.id && m == p.modifiers.value
    ensures var r := Dispatch(config, env, req, p, files, written);
      var image := env.ipx(p.id, p.modifiers.value).image;
      && image.Ok?
      && r.headers[ETag] == env.etag(image.value.data)
      && (r.body.Some? ==>
            r.body.value == image.value.data && r.headers[ContentType] == MimeOf(image.value.format))
  {
    var key := CacheKey(env, p);
    var id, m :| env.hash(id, m) == key && Produced(env, id, m, files[key]);
    assert id == p.id && m == p.modifiers.value;
  }

  /** End to end: a request for `/uploads/<key>_<value>/<id>` is answered as the
      parsed id with one decoded modifier, so `Serve` is `Dispatch` on exactly
      that parse, whatever the query string says. */
  lemma ServeSingleDirective(config: Config, env: Env, req: Request,
                             files: map<string, CacheEntry>, written: bool,
                             key: string, value: string, id: string)
    requires env.codec.parseUrl(req.url).pathname == "/uploads/" + key + "_" + value + "/" + id
    requires '/' !in key && ',' !in key && '_' !in key
    requires '/' !in value && ',' !in value && '_' !in value
    requires '/' !in id
    requires key + value != ""
    ensures Serve(config, env, req, files, written)
         == Dispatch(config, env, req, ParsedUrl(id, Some([(key, env.codec.decode(value))])), files, written)
  {
    SingleDirective(req.url, env.codec, key, value, id);
  }
}
