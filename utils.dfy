/** Small helpers: turning an API path into a dotted module name, parsing the
    CORS origins setting, and the API prefix settings. */
module Utils {
  import opened Errors
  import opened Text

  // ---------------------------------------------------------------------
  // API paths

  /** An API path given as a string or as a filesystem path; a filesystem
      path is represented by its string form `str(path)`. */
  datatype ApiPath = TextPath(text: string) | FsPath(text: string)

  /** `s.strip("/").replace("/", ".")` */
  function Dotted(s: string): (r: string)
    ensures |r| <= |s|
    ensures '/' !in r
  {
    var stripped := Strip(s, {'/'});
    var r := ReplaceChar(stripped, '/', '.');
    assert forall i :: 0 <= i < |r| ==> r[i] != '/';
    r
  }

  /** `path_to_dotted_string` / `convert_api_path`: a filesystem path is
      converted through its string form, so both kinds agree. */
  function ConvertApiPath(p: ApiPath): (r: string)
    ensures r == Dotted(p.text)
  {
    match p
    case FsPath(text) => Dotted(text)
    case TextPath(text) => Dotted(text)
  }

  /** A dotted name is left as it is when converted again. */
  lemma DottedIdempotent(s: string)
    ensures Dotted(Dotted(s)) == Dotted(s)
  {
    var r := Dotted(s);
    assert LStrip(r, {'/'}) == r;
    assert RStrip(r, {'/'}) == r;
    assert ReplaceChar(r, '/', '.') == r;
  }

  /** When the path holds no dot of its own, turning the dots back into
      slashes gives the path with its outer slashes removed; the dotted name
      then neither starts nor ends with a dot. */
  lemma DottedRoundTrip(s: string)
    requires '.' !in s
    ensures ReplaceChar(Dotted(s), '.', '/') == Strip(s, {'/'})
    ensures Dotted(s) == [] || (Dotted(s)[0] != '.' && Dotted(s)[|Dotted(s)| - 1] != '.')
  {
    StripShape(s, {'/'});
    ReplaceBack(Strip(s, {'/'}));
  }

  /** What `strip` keeps is a slice of the input whose ends are not stripped
      characters. */
  lemma StripShape(s: string, chars: set<char>)
    ensures forall i :: 0 <= i < |Strip(s, chars)| ==> Strip(s, chars)[i] in s
    ensures Strip(s, chars) == [] || (Strip(s, chars)[0] !in chars
      && Strip(s, chars)[|Strip(s, chars)| - 1] !in chars)
  {
    var l := LStrip(s, chars);
    StripInside(s, l, chars);
    if Strip(s, chars) != [] {
      assert Strip(s, chars)[0] == l[0];
    }
  }

  lemma StripInside(s: string, l: string, chars: set<char>)
    requires l == LStrip(s, chars)
    ensures forall i :: 0 <= i < |Strip(s, chars)| ==> Strip(s, chars)[i] in s
  {
    var r := RStrip(l, chars);
    forall i | 0 <= i < |r|
      ensures r[i] in s
    {
      assert r[i] == l[i];
      assert l[i] == s[|s| - |l| + i];
    }
  }

  /** Turning slashes into dots and back is the identity on a string
      without dots. */
  lemma ReplaceBack(x: string)
    requires '.' !in x
    ensures ReplaceChar(ReplaceChar(x, '/', '.'), '.', '/') == x
  {
    var y := ReplaceChar(ReplaceChar(x, '/', '.'), '.', '/');
    assert forall i :: 0 <= i < |x| ==> y[i] == x[i];
  }

  lemma DottedExample()
    ensures Dotted("/api/v1/") == "api.v1"
  {
    assert LStrip("/api/v1/", {'/'}) == "api/v1/";
    assert RStrip("api/v1/", {'/'}) == "api/v1";
  }

  // ---------------------------------------------------------------------
  // CORS origins

  /** The raw setting: a string, a list, or anything else. */
  datatype CorsInput = CorsText(text: string) | CorsItems(items: seq<string>) | CorsOther

  /** A list of origins, or a `[`-prefixed string passed on as it is. */
  datatype Cors = Origins(urls: seq<string>) | Verbatim(text: string)

  /** `[i.strip() for i in v.split(",")]` */
  function SplitOrigins(text: string): (urls: seq<string>)
    ensures |urls| == |Split(text, ',')|
    ensures forall i :: 0 <= i < |urls| ==> urls[i] == StripSpace(Split(text, ',')[i])
  {
    seq(|Split(text, ',')|, i requires 0 <= i < |Split(text, ',')| => StripSpace(Split(text, ',')[i]))
  }

  /** `parse_cors`; `invalid` is the error raised for a value that is
      neither a string nor a list. */
  function ParseCors(v: CorsInput, invalid: Error): (r: Result<Cors>)
    ensures r.Err? <==> v.CorsOther?
    ensures r.Err? ==> r.error == invalid
    ensures v.CorsItems? ==> r == Ok(Origins(v.items))
    ensures v.CorsText? && StartsWith(v.text, "[") ==> r == Ok(Verbatim(v.text))
    ensures v.CorsText? && !StartsWith(v.text, "[") ==> r.Ok? && r.value.Origins?
  {
    match v
    case CorsText(text) =>
      if !StartsWith(text, "[") then Ok(Origins(SplitOrigins(text))) else Ok(Verbatim(text))
    case CorsItems(items) => Ok(Origins(items))
    case CorsOther => Err(invalid)
  }

  /** The variant that refuses an invalid value with an HTTP 400. */
  function ParseCorsHttp(v: CorsInput): (r: Result<Cors>)
    ensures r.Err? <==> v.CorsOther?
    ensures r.Err? ==> r.error == InvalidCors
  {
    ParseCors(v, InvalidCors)
  }

  /** The variant that refuses an invalid value with a ValueError. */
  function ParseCorsValueError(v: CorsInput): (r: Result<Cors>)
    ensures r.Err? <==> v.CorsOther?
    ensures r.Err? ==> r.error.ValueError?
  {
    ParseCors(v, ValueError("Invalid CORS value"))
  }

  /** Every origin split out of a string holds no comma and no surrounding
      white space, and there is one more origin than there are commas. */
  lemma OriginsAreClean(text: string)
    requires !StartsWith(text, "[")
    ensures var urls := ParseCors(CorsText(text), InvalidCors).value.urls;
      (forall i :: 0 <= i < |urls| ==>
        (',' !in urls[i] && (urls[i] == [] || (!IsSpace(urls[i][0]) && !IsSpace(urls[i][|urls[i]| - 1])))))
      && |urls| == |Split(text, ',')|
  {
    var urls := ParseCors(CorsText(text), InvalidCors).value.urls;
    forall i | 0 <= i < |urls|
      ensures ',' !in urls[i]
    {
      var piece := Split(text, ',')[i];
      assert piece in Split(text, ',');
      StripSpaceInside(piece);
    }
  }

  /** When the string holds no white space, joining the origins with commas
      gives the string back. */
  lemma OriginsRoundTrip(text: string)
    requires !StartsWith(text, "[")
    requires forall i :: 0 <= i < |text| ==> !IsSpace(text[i])
    ensures Join(ParseCors(CorsText(text), InvalidCors).value.urls, ',') == text
  {
    var pieces := Split(text, ',');
    var urls := ParseCors(CorsText(text), InvalidCors).value.urls;
    forall i | 0 <= i < |pieces|
      ensures urls[i] == pieces[i]
    {
      PiecesInside(text, ',', i);
      NoSpaceUnchanged(pieces[i]);
    }
    assert urls == pieces;
    SplitJoin(text, ',');
  }

  /** Stripping keeps only characters of the input. */
  lemma {:induction false} StripSpaceInside(s: string)
    ensures forall c :: c in StripSpace(s) ==> c in s
    decreases |s|
  {
    if s != [] && IsSpace(s[0]) {
      StripSpaceInside(s[1..]);
    } else if s != [] && IsSpace(s[|s| - 1]) {
      StripSpaceInside(s[..|s| - 1]);
    }
  }

  /** A string without white space is not changed by stripping. */
  lemma NoSpaceUnchanged(s: string)
    requires forall i :: 0 <= i < |s| ==> !IsSpace(s[i])
    ensures StripSpace(s) == s
  {
  }

  /** Each piece of a split holds only characters of the input. */
  lemma {:induction false} PiecesInside(s: string, sep: char, k: nat)
    requires k < |Split(s, sep)|
    ensures forall j :: 0 <= j < |Split(s, sep)[k]| ==> Split(s, sep)[k][j] in s
    decreases |s|
  {
    if sep in s {
      var i := IndexOf(s, sep);
      if k > 0 {
        PiecesInside(s[i + 1..], sep, k - 1);
        forall j | 0 <= j < |Split(s, sep)[k]|
          ensures Split(s, sep)[k][j] in s
        {
          assert Split(s, sep)[k] == Split(s[i + 1..], sep)[k - 1];
          var c := Split(s, sep)[k][j];
          assert c in s[i + 1..];
        }
      } else {
        assert Split(s, sep)[0] == s[..i];
        forall j | 0 <= j < i
          ensures s[..i][j] in s
        {
          assert s[..i][j] == s[j];
        }
      }
    }
  }

  // ---------------------------------------------------------------------
  // API prefix settings

  /** `v` with a `/` put in front unless it already starts with one. */
  function WithLeadingSlash(v: string): (r: string)
    ensures StartsWith(r, "/")
    ensures StartsWith(v, "/") ==> r == v
    ensures !StartsWith(v, "/") ==> r == "/" + v
  {
    if StartsWith(v, "/") then v else "/" + v
  }

  /** Normalising twice is normalising once. */
  lemma LeadingSlashIdempotent(v: string)
    ensures WithLeadingSlash(WithLeadingSlash(v)) == WithLeadingSlash(v)
  {
  }

  /** The API prefix settings; each constructor argument is the value from
      the environment, `None` where the default applies. */
  class ApiPrefix {
    var apiPrefix: string
    var versionPrefix: string
    var login: string

    constructor(apiPrefix: Option<string>, versionPrefix: Option<string>, login: Option<string>)
      ensures this.apiPrefix == (if apiPrefix.Some? then apiPrefix.value else "/api")
      ensures this.versionPrefix ==
        WithLeadingSlash(if versionPrefix.Some? then versionPrefix.value else "v1")
      ensures this.login == (if login.Some? then login.value else "/login")
      ensures StartsWith(this.versionPrefix, "/")
    {
      this.apiPrefix := if apiPrefix.Some? then apiPrefix.value else "/api";
      this.login := if login.Some? then login.value else "/login";
      var version := if versionPrefix.Some? then versionPrefix.value else "v1";
      if !StartsWith(version, "/") {
        version := "/" + version;
      }
      this.versionPrefix := version;
    }

    /** `get_api_prefix` */
    function GetApiPrefix(): (r: string)
      reads this
      ensures StartsWith(r, apiPrefix) && r[|apiPrefix|..] == versionPrefix
    {
      apiPrefix + versionPrefix
    }

    /** `bearer_token_url`: the API prefix followed by the login path (the
        auth path is not part of it). */
    function BearerTokenUrl(): (r: string)
      reads this
      ensures StartsWith(r, GetApiPrefix()) && r[|GetApiPrefix()|..] == login
    {
      GetApiPrefix() + login
    }
  }

  /** With nothing set in the environment the prefix is "/api/v1" and the
      token URL "/api/v1/login". */
  method DefaultUrls() returns (prefix: string, tokenUrl: string)
    ensures prefix == "/api/v1" && tokenUrl == "/api/v1/login"
  {
    assert WithLeadingSlash("v1") == "/v1" by {
      assert "v1"[..1][0] == 'v';
    }
    var settings := new ApiPrefix(None, None, None);
    prefix := settings.GetApiPrefix();
    tokenUrl := settings.BearerTokenUrl();
  }
}
