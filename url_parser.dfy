/** `parseImageUrl`: from a request URL to the asset id and the modifier object.
    The path loses its first `uploads/`, is split on `/`, the last segment is the
    id and the one before it, unless empty or the sentinel `_`, carries
    comma-separated `key_value` directives; otherwise a non-empty query string
    gives the modifiers, and with neither the modifiers are `null` (`None`). */
module UrlParser {
  import opened Wrappers
  import opened JsString
  import opened Modifiers

  /** The parts of a URL the parser reads (from ufo's `parseURL`). */
  datatype UrlParts = UrlParts(pathname: string, search: string)

  /** The URL helpers of the ufo library, kept opaque: `parseURL`, `decode`
      (percent-decoding of one directive value) and `getQuery`. */
  datatype Codec = Codec(
    parseUrl: string -> UrlParts,
    decode: string -> string,
    getQuery: string -> Modifiers)

  datatype ParsedUrl = ParsedUrl(id: string, modifiers: Option<Modifiers>)

  const UploadsPrefix: string := "uploads/"
  /** A directive segment equal to this means "no directives". */
  const NoDirectives: string := "_"

  /** The `/`-separated segments of the path once its first `uploads/` is gone. */
  function Segments(pathname: string): (segs: seq<string>)
    ensures |segs| >= 1
  {
    Split(ReplaceFirst(pathname, UploadsPrefix, ""), '/')
  }

  /** The segment just before the id, if there is one. */
  function DirectiveSegment(pathname: string): Option<string>
  {
    var segs := Segments(pathname);
    if |segs| >= 2 then Some(segs[|segs| - 2]) else None
  }

  /** The directive segment is used: present, non-empty and not the sentinel. */
  predicate HasDirectives(pathname: string)
  {
    var seg := DirectiveSegment(pathname);
    seg.Some? && seg.value != "" && seg.value != NoDirectives
  }

  /** `const [key, value = ''] = token.split('_')`: the first piece is the key, the
      SECOND piece the raw value (`''` when there is none); any further piece is
      dropped. */
  function TokenKey(token: string): string
  {
    Split(token, '_')[0]
  }

  function TokenValue(token: string): string
  {
    var pieces := Split(token, '_');
    if |pieces| >= 2 then pieces[1] else ""
  }

  /** The assignment `obj[key] = decode(value)` one token stands for. */
  function Entries(tokens: seq<string>, decode: string -> string): (es: seq<(string, string)>)
    ensures |es| == |tokens|
    ensures forall i :: 0 <= i < |tokens| ==> es[i] == (TokenKey(tokens[i]), decode(TokenValue(tokens[i])))
  {
    seq(|tokens|, i requires 0 <= i < |tokens| => (TokenKey(tokens[i]), decode(TokenValue(tokens[i]))))
  }

  /** The object built from the tokens, assigned from left to right. */
  function Directives(tokens: seq<string>, decode: string -> string): Modifiers
  {
    AssignAll(Entries(tokens, decode))
  }

  /** The id: the last segment. */
  function IdOf(pathname: string): string
  {
    var segs := Segments(pathname);
    segs[|segs| - 1]
  }

  /** The modifiers: from the directive segment when it is used, else from a
      non-empty query string, else none. */
  function ModifiersOf(parts: UrlParts, codec: Codec): Option<Modifiers>
  {
    if HasDirectives(parts.pathname) then
      Some(Directives(Split(DirectiveSegment(parts.pathname).value, ','), codec.decode))
    else if parts.search != "" then
      Some(codec.getQuery(parts.search))
    else
      None
  }

  /** What `parseImageUrl(url)` returns: the modifiers are `null` only for a URL
      without a query string. */
  function Parse(url: string, codec: Codec): (r: ParsedUrl)
    ensures r.modifiers.None? ==> codec.parseUrl(url).search == ""
  {
    var parts := codec.parseUrl(url);
    ParsedUrl(IdOf(parts.pathname), ModifiersOf(parts, codec))
  }

  /** `parseImageUrl`, step by step: two pops off the segment list, then a loop
      over the comma-separated tokens filling the object. */
  method ParseImageUrl(url: string, codec: Codec) returns (result: ParsedUrl)
    ensures result == Parse(url, codec)
  {
    result := ParsedUrl("", None);
    var parts := codec.parseUrl(url);
    var pathParts := Split(ReplaceFirst(parts.pathname, UploadsPrefix, ""), '/');

    result := result.(id := pathParts[|pathParts| - 1]);
    pathParts := pathParts[..|pathParts| - 1];

    var pathModifier: Option<string> := None;
    if |pathParts| > 0 {
      pathModifier := Some(pathParts[|pathParts| - 1]);
      pathParts := pathParts[..|pathParts| - 1];
    }

    if pathModifier.Some? && pathModifier.value != "" && pathModifier.value != NoDirectives {
      var modifiers := FillDirectives(Split(pathModifier.value, ','), codec.decode);
      result := result.(modifiers := Some(modifiers));
      return;
    }
    if parts.search != "" {
      result := result.(modifiers := Some(codec.getQuery(parts.search)));
      return;
    }
  }

  /** The loop of `parseImageUrl` over the comma-separated tokens: each token's
      key is assigned its decoded value, later tokens overwriting earlier ones;
      the object built is the one `Directives` describes. */
  method FillDirectives(tokens: seq<string>, decode: string -> string) returns (modifiers: Modifiers)
    ensures modifiers == Directives(tokens, decode)
  {
    modifiers := [];
    ghost var entries := Entries(tokens, decode);
    for i := 0 to |tokens|
      invariant modifiers == AssignAll(entries[..i])
    {
      var pieces := Split(tokens[i], '_');
      var key := pieces[0];
      var value := if |pieces| >= 2 then pieces[1] else "";
      assert entries[i] == (key, decode(value));
      assert entries[..i + 1][..i] == entries[..i];
      modifiers := Put(modifiers, key, decode(value));
    }
    assert entries[..|tokens|] == entries;
  }

  // ---------------------------------------------------------------------------
  // Properties

  /** The id is the text after the last `/` of the path once its first `uploads/`
      is removed (the whole of it when it has no `/`), never altered. */
  lemma IdIsLastSegment(url: string, codec: Codec)
    ensures var stripped := ReplaceFirst(codec.parseUrl(url).pathname, UploadsPrefix, "");
      var id := Parse(url, codec).id;
      && '/' !in id
      && |id| <= |stripped| && stripped[|stripped| - |id|..] == id
      && (|id| < |stripped| ==> stripped[|stripped| - |id| - 1] == '/')
  {
    var pathname := codec.parseUrl(url).pathname;
    assert Parse(url, codec).id == IdOf(pathname);
    IdPlace(pathname);
  }

  lemma IdPlace(pathname: string)
    ensures var stripped, id := ReplaceFirst(pathname, UploadsPrefix, ""), IdOf(pathname);
      && '/' !in id
      && |id| <= |stripped| && stripped[|stripped| - |id|..] == id
      && (|id| < |stripped| ==> stripped[|stripped| - |id| - 1] == '/')
  {
    IsLastPiece(ReplaceFirst(pathname, UploadsPrefix, ""), '/', IdOf(pathname));
  }

  /** A token's key is the text before its first `_` (all of it when it has none);
      its value is the text between the first and the second `_`, or `""` when the
      token has no `_`. */
  lemma TokenKeyValue(token: string)
    ensures var key, value := TokenKey(token), TokenValue(token);
      && '_' !in key && '_' !in value
      && ('_' !in token ==> key == token && value == "")
      && ('_' in token ==>
            && |key| + 1 + |value| <= |token|
            && token[..|key| + 1 + |value|] == key + "_" + value
            && (|key| + 1 + |value| < |token| ==> token[|key| + 1 + |value|] == '_'))
  {
    FirstPieces(token, '_');
    var key, value := TokenKey(token), TokenValue(token);
    if '_' in token {
      var n := |key| + 1 + |value|;
      assert token[..n] == token[..|key|] + [token[|key|]] + token[|key| + 1..n];
    }
  }

  /** The directive segment is the text between the last two `/` of the path
      minus `uploads/`, or from its start to its only `/` (see
      `DirectiveSegmentNone` for when there is none). */
  lemma DirectiveSegmentPlace(pathname: string)
    ensures var stripped := ReplaceFirst(pathname, UploadsPrefix, "");
      var seg := DirectiveSegment(pathname);
      seg.Some? ==> SegmentBefore(stripped, seg.value, IdOf(pathname))
  {
    var segs := Segments(pathname);
    if |segs| >= 2 {
      SlashSegments(ReplaceFirst(pathname, UploadsPrefix, ""), segs,
        DirectiveSegment(pathname).value, IdOf(pathname));
    }
  }

  /** There is no directive segment exactly when the path minus `uploads/` has
      no `/`. */
  lemma DirectiveSegmentNone(pathname: string)
    ensures var stripped := ReplaceFirst(pathname, UploadsPrefix, "");
      DirectiveSegment(pathname).None? <==> '/' !in stripped
  {
  }

  /** `seg` is the segment just before `id` at the end of `s`: free of `/`,
      followed by `/` and `id`, and preceded by `/` unless it starts `s`. */
  predicate SegmentBefore(s: string, seg: string, id: string)
  {
    && '/' !in seg
    && |seg| + 1 + |id| <= |s|
    && s[|s| - |id| - 1 - |seg|..] == seg + ['/'] + id
    && (|seg| + 1 + |id| < |s| ==> s[|s| - |id| - 2 - |seg|] == '/')
  }

  /** In text with a `/` the next-to-last piece of the split is the segment
      before the last piece. */
  lemma SlashSegments(s: string, segs: seq<string>, seg: string, id: string)
    requires segs == Split(s, '/') && |segs| >= 2
    requires seg == segs[|segs| - 2] && id == segs[|segs| - 1]
    ensures SegmentBefore(s, seg, id)
  {
    NextToLastPiece(s, '/');
  }

  /** Where the modifiers come from: from the directive segment (see
      `DirectiveSegmentPlace`) when the path has one that is neither empty nor
      `_`, the query string being then ignored; otherwise, including a path
      without `/`, from a non-empty query string through `getQuery`; otherwise
      nothing (`null`). */
  lemma ModifiersSource(url: string, codec: Codec)
    ensures var parts := codec.parseUrl(url);
      var stripped := ReplaceFirst(parts.pathname, UploadsPrefix, "");
      var m := Parse(url, codec).modifiers;
      var fallback := if parts.search != "" then Some(codec.getQuery(parts.search)) else None;
      && ('/' !in stripped ==> m == fallback)
      && ('/' in stripped ==>
            var seg := DirectiveSegment(parts.pathname).value;
            m == if seg != "" && seg != NoDirectives then Some(Directives(Split(seg, ','), codec.decode))
                 else fallback)
  {
    DirectiveSegmentPlace(codec.parseUrl(url).pathname);
  }

  /** With a directive segment the query string plays no part: two URLs with the
      same path parse alike whatever their query strings. */
  lemma QueryIgnoredWithDirectives(url1: string, url2: string, codec: Codec)
    requires codec.parseUrl(url1).pathname == codec.parseUrl(url2).pathname
    requires HasDirectives(codec.parseUrl(url1).pathname)
    ensures Parse(url1, codec) == Parse(url2, codec)
  {
  }

  /** The directive object has one entry per distinct key; a key is in it exactly
      when some token carries it, and it holds the decoded value of the LAST token
      carrying it: a later duplicate overwrites an earlier one. */
  lemma DirectivesLastWins(tokens: seq<string>, decode: string -> string, key: string)
    ensures DistinctKeys(Directives(tokens, decode))
    ensures (key in ToMap(Directives(tokens, decode)))
              <==> (exists i :: 0 <= i < |tokens| && TokenKey(tokens[i]) == key)
    ensures forall i :: 0 <= i < |tokens| && TokenKey(tokens[i]) == key
              && (forall j :: i < j < |tokens| ==> TokenKey(tokens[j]) != key)
              ==> ToMap(Directives(tokens, decode))[key] == decode(TokenValue(tokens[i]))
  {
    var entries := Entries(tokens, decode);
    AssignAllDistinct(entries);
    AssignAllLastWins(entries, key);
    if key in ToMap(AssignAll(entries)) {
      var i :| 0 <= i < |entries| && entries[i].0 == key;
      assert TokenKey(tokens[i]) == key;
    }
    if exists i :: 0 <= i < |tokens| && TokenKey(tokens[i]) == key {
      var i :| 0 <= i < |tokens| && TokenKey(tokens[i]) == key;
      assert entries[i].0 == key;
    }
  }

  /** A path of the form `/uploads/<rest>` loses exactly its leading `uploads/`. */
  lemma StripUploads(rest: string)
    ensures ReplaceFirst("/uploads/" + rest, UploadsPrefix, "") == "/" + rest
  {
    var s := "/uploads/" + rest;
    assert !OccursAt(s, UploadsPrefix, 0) by { assert s[0] == '/'; }
    assert s[1..9] == UploadsPrefix;
    assert IndexOfFrom(s, UploadsPrefix, 1) == Some(1);
    assert s[..1] + s[9..] == "/" + rest;
  }

  /** A path `/uploads/<id>` splits into an empty segment and the id. */
  lemma TwoSegments(id: string)
    requires '/' !in id
    ensures Segments("/uploads/" + id) == ["", id]
  {
    StripUploads(id);
    var segs := ["", id];
    assert Join(segs, '/') == "/" + id;
    SplitJoin(segs, '/');
  }

  /** The repository's examples of a path without a directive segment: the
      modifiers come from the query string... */
  lemma QueryExample(codec: Codec)
    requires codec.parseUrl("/uploads/photo.jpg?format=webp") == UrlParts("/uploads/photo.jpg", "?format=webp")
    ensures Parse("/uploads/photo.jpg?format=webp", codec)
      == ParsedUrl("photo.jpg", Some(codec.getQuery("?format=webp")))
  {
    assert "/uploads/photo.jpg" == "/uploads/" + "photo.jpg";
    TwoSegments("photo.jpg");
  }

  /** ...and with no query string they are `null`. */
  lemma NoModifiersExample(codec: Codec)
    requires codec.parseUrl("/uploads/photo.jpg") == UrlParts("/uploads/photo.jpg", "")
    ensures Parse("/uploads/photo.jpg", codec) == ParsedUrl("photo.jpg", None)
  {
    assert "/uploads/photo.jpg" == "/uploads/" + "photo.jpg";
    TwoSegments("photo.jpg");
  }

  /** One `key_value` token with no further separator assigns one entry. */
  lemma SingleToken(key: string, value: string, decode: string -> string)
    requires ',' !in key && '_' !in key && ',' !in value && '_' !in value
    ensures Split(key + "_" + value, ',') == [key + "_" + value]
    ensures Directives([key + "_" + value], decode) == [(key, decode(value))]
  {
    var segment := key + "_" + value;
    assert ',' !in segment;
    assert Join([key, value], '_') == segment;
    SplitJoin([key, value], '_');
    var entries := Entries([segment], decode);
    assert entries == [(key, decode(value))];
    assert entries[..0] == [];
    assert AssignAll(entries) == Put(AssignAll([]), key, decode(value));
  }

  /** The segments of `/uploads/<segment>/<id>`. */
  lemma ThreeSegments(segment: string, id: string)
    requires '/' !in segment && '/' !in id
    ensures Segments("/uploads/" + segment + "/" + id) == ["", segment, id]
  {
    assert "/uploads/" + segment + "/" + id == "/uploads/" + (segment + "/" + id);
    StripUploads(segment + "/" + id);
    var segs := ["", segment, id];
    assert segs[1..] == [segment, id] && segs[1..][1..] == [id];
    assert Join(segs[1..], '/') == segment + "/" + id;
    assert Join(segs, '/') == "" + "/" + Join(segs[1..], '/');
    assert Join(segs, '/') == "/" + (segment + "/" + id);
    SplitJoin(segs, '/');
  }

  /** A path `/uploads/<key>_<value>/<id>` with one directive: the id is the last
      segment and the modifiers hold the one decoded value, whatever the query. */
  lemma SingleDirective(url: string, codec: Codec, key: string, value: string, id: string)
    requires codec.parseUrl(url).pathname == "/uploads/" + key + "_" + value + "/" + id
    requires '/' !in key && ',' !in key && '_' !in key
    requires '/' !in value && ',' !in value && '_' !in value
    requires '/' !in id
    requires key + value != ""
    ensures Parse(url, codec) == ParsedUrl(id, Some([(key, codec.decode(value))]))
  {
    var segment := key + "_" + value;
    var pathname := codec.parseUrl(url).pathname;
    assert pathname == "/uploads/" + segment + "/" + id;
    assert '/' !in segment;
    ThreeSegments(segment, id);
    SingleToken(key, value, codec.decode);
    assert segment != "" && segment != NoDirectives by { assert |segment| > 1; }
    assert DirectiveSegment(pathname) == Some(segment);
  }
}
