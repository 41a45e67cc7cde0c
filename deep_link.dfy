/** The deep link of static/app.js: the sentence is kept in the page URL
    as the query parameter `text`. `addToUrl` writes it and `loadFromUrl`
    reads it back; `DEFAULT` is used when the URL holds no sentence. */
module DeepLink {
  import opened Wrappers
  import opened Text
  import opened UriCodec

  /** `DEFAULT`: the sentence shown when the URL holds none. */
  const Default: string := "Joel is"

  /** `choice || ''`: the chosen token, or nothing when there is none. */
  function ChoiceText(choice: Option<string>): string {
    match choice
    case None => ""
    case Some(token) => token
  }

  /** The query string `addToUrl(output, choice)` pushes as the new URL:
      `?text=` and the percent-encoded `output + (choice || '')`. */
  function SearchFor(output: string, choice: Option<string>): string {
    "?text=" + EncodeComponent(output + ChoiceText(choice))
  }

  /** `document.location.search.substr(1)`: the query without its leading '?'. */
  function Query(search: string): string {
    if |search| == 0 then "" else search[1..]
  }

  /** `parts.map(p => p.split('='))`. */
  function SplitEach(parts: seq<string>): (params: seq<seq<string>>)
    ensures |params| == |parts|
    ensures forall i | 0 <= i < |parts| :: params[i] == Split(parts[i], '=')
  {
    if parts == [] then [] else [Split(parts[0], '=')] + SplitEach(parts[1..])
  }

  /** `params.find(p => p[0] === key)`, as the index of the first parameter
      whose name is exactly key, or None when there is none. */
  function FindKey(params: seq<seq<string>>, key: string): (k: Option<nat>)
    requires forall i | 0 <= i < |params| :: |params[i]| >= 1
    ensures k.Some? ==> k.value < |params| && params[k.value][0] == key
    ensures k.Some? ==> forall j | 0 <= j < k.value :: params[j][0] != key
    ensures k.None? <==> forall j | 0 <= j < |params| :: params[j][0] != key
  {
    if |params| == 0 then None
    else if params[0][0] == key then Some(0)
    else match FindKey(params[1..], key)
      case None => None
      case Some(k) => Some(k + 1)
  }

  /** `decodeURIComponent(text.pop())`: the decoded parameter value, or
      the URIError it throws. */
  function DecodeValue(value: string): Result<Option<string>, UriError> {
    match DecodeComponent(value)
    case Failure(e) => Failure(e)
    case Success(text) => Success(Some(text))
  }

  /** `loadFromUrl()` for the page's `location.search`: None when the URL
      holds no usable `text` parameter, a Failure when its value is a
      malformed escape (`decodeURIComponent` throws). */
  function LoadFromUrl(search: string): Result<Option<string>, UriError> {
    FirstTextParam(Split(Query(search), '&'))
  }

  /** The search over the `&`-separated parts of the query, one part at a
      time: the first part whose name is `text` decides, and yields its
      decoded value only if it split on '=' into exactly two pieces. */
  function FirstTextParam(parts: seq<string>): Result<Option<string>, UriError> {
    if parts == [] then Success(None)
    else
      var param := Split(parts[0], '=');
      if param[0] != "text" then FirstTextParam(parts[1..])
      else if |param| != 2 then Success(None)
      else DecodeValue(param[1])
  }

  /** FirstTextParam is `map(p => p.split('='))` followed by
      `find(p => p[0] === 'text')` and the two-pieces test: a later
      well-formed `text` parameter never rescues a malformed first one. */
  lemma {:induction false} FirstTextParamFinds(parts: seq<string>)
    ensures
      var params := SplitEach(parts);
      FirstTextParam(parts) ==
        match FindKey(params, "text")
        case None => Success(None)
        case Some(k) => if |params[k]| == 2 then DecodeValue(params[k][1]) else Success(None)
  {
    if parts != [] {
      FirstTextParamFinds(parts[1..]);
      assert SplitEach(parts)[1..] == SplitEach(parts[1..]);
    }
  }

  /** A query string `?text=` followed by a value with no '&' and no '='
      reads back as that value, decoded. */
  lemma ReadTextParam(value: string)
    requires '&' !in value && '=' !in value
    ensures LoadFromUrl("?text=" + value) == DecodeValue(value)
  {
    var query := "text" + "=" + value;
    assert Query("?text=" + value) == query;
    SplitPiece(query, '&');
    SplitPiece(value, '=');
    SplitAfterPiece("text", value, '=');
  }

  /** Whatever `addToUrl(output, choice)` pushes, `loadFromUrl` reads back
      as `output + (choice || '')`: the encoding escapes '&' and '='. */
  lemma LoadSearchFor(output: string, choice: Option<string>)
    ensures LoadFromUrl(SearchFor(output, choice)) == Success(Some(output + ChoiceText(choice)))
  {
    var text := output + ChoiceText(choice);
    var encoded := EncodeComponent(text);
    assert '&' !in encoded && '=' !in encoded;
    ReadTextParam(encoded);
    DecodeEncode(text);
  }

  /** A `text` value `decodeURIComponent` throws on makes `loadFromUrl`
      throw: there is no fallback to `DEFAULT` for a malformed escape. */
  lemma MalformedTextThrows(value: string)
    requires '&' !in value && '=' !in value && DecodeComponent(value).Failure?
    ensures LoadFromUrl("?text=" + value).Failure?
  {
    ReadTextParam(value);
  }

  /** A lone '%' makes `loadFromUrl` throw. */
  lemma LoneEscapeThrows()
    ensures LoadFromUrl("?text=%").Failure?
  {
    assert DecodeEscape("%").Failure?;
    assert DecodeComponent("%").Failure?;
    MalformedTextThrows("%");
    assert "?text=" + "%" == "?text=%";
  }

  /** The lead byte of a two-byte UTF-8 sequence without its continuation
      byte makes `loadFromUrl` throw. */
  lemma TruncatedEscapeThrows()
    ensures LoadFromUrl("?text=%C3").Failure?
  {
    TruncatedFails("%C3");
    assert DecodeComponent("%C3").Failure?;
    MalformedTextThrows("%C3");
    assert "?text=" + "%C3" == "?text=%C3";
  }

  /** `loadFromUrl() || DEFAULT`: the sentence a URL starts the page with.
      It is never empty: a missing and an empty `text` both fall back. */
  function InitialOutput(loaded: Option<string>): (output: string)
    ensures output != []
    ensures loaded.Some? && loaded.value != [] ==> output == loaded.value
    ensures output == Default || loaded == Some(output)
  {
    match loaded
    case Some(text) => if text == [] then Default else text
    case None => Default
  }

  /** The URL holds a sentence of its own: `loadFromUrl()` gives a
      non-empty string (the condition under which the `popstate` handler
      suppresses pushing a new URL). */
  predicate IsDeepLink(search: string) {
    match LoadFromUrl(search)
    case Success(Some(text)) => text != []
    case _ => false
  }
}
