/** A model of the Instagram link extractor `extract_instagram_url` and of the
    response built by the `save_instagram_data` route.

    The extractor performs a Python `re.search` of the pattern
        https?://(?:www\.)?instagram\.com/[^\s]+
    with no flags, and returns the whole match or None. The source imports
    `re` from sympy, which has no `search`; the model follows the evident
    intent, the standard-library `re.search`.

    Two descriptions of the pattern are given and proved to agree:
    `InLanguage` says which strings the pattern denotes, and `MatchAt`
    follows the backtracking engine at one start index, which `Search`
    tries from left to right. */
module InstagramRoutes {

  datatype Option<+T> = None | Some(value: T)

  /** A half-open span [start, end) of the searched text. */
  datatype Span = Span(start: nat, end: nat)

  // ---------------------------------------------------------------------
  // Character classes
  // ---------------------------------------------------------------------

  /** Python's `\s` on a `str` pattern: the characters for which
      `str.isspace()` holds. */
  predicate IsSpace(c: char)
  {
    || ('\t' <= c <= '\r')              // tab, line feed, vertical tab, form feed, carriage return
    || ('\U{001C}' <= c <= '\U{001F}')      // file, group, record and unit separators
    || c == ' '
    || c == '\U{0085}'                    // next line
    || c == '\U{00A0}'                    // no-break space
    || c == '\U{1680}'                    // ogham space mark
    || ('\U{2000}' <= c <= '\U{200A}')      // en quad .. hair space
    || c == '\U{2028}' || c == '\U{2029}'   // line and paragraph separators
    || c == '\U{202F}'                    // narrow no-break space
    || c == '\U{205F}'                    // medium mathematical space
    || c == '\U{3000}'                    // ideographic space
  }

  /** Every character of `s` is matched by `[^\s]`. */
  predicate NoSpace(s: string)
  {
    forall k :: 0 <= k < |s| ==> !IsSpace(s[k])
  }

  // ---------------------------------------------------------------------
  // What the pattern denotes
  // ---------------------------------------------------------------------

  /** The pieces of the pattern's literal prefix. */
  const Http := "http://"
  const Https := "https://"
  const Www := "www."
  const Host := "instagram.com/"

  /** The four strings `https?://(?:www\.)?instagram\.com/` can match. */
  predicate IsUrlPrefix(p: string)
  {
    || p == Http + Host
    || p == Https + Host
    || p == Http + Www + Host
    || p == Https + Www + Host
  }

  /** `s` is prefix `p` followed by one or more non-whitespace characters. */
  predicate PrefixedTail(s: string, p: string)
  {
    |p| < |s| && s[..|p|] == p && NoSpace(s[|p|..])
  }

  /** `s` belongs to the language of the whole pattern. */
  ghost predicate InLanguage(s: string)
  {
    exists p :: IsUrlPrefix(p) && PrefixedTail(s, p)
  }

  /** `u` occurs in `text` as a contiguous substring. */
  ghost predicate Contains(text: string, u: string)
  {
    exists i, j :: 0 <= i <= j <= |text| && text[i..j] == u
  }

  /** Some substring of `text` starting at `i` is in the language. */
  ghost predicate MatchExistsAt(text: string, i: nat)
  {
    exists j :: i <= j <= |text| && InLanguage(text[i..j])
  }

  // ---------------------------------------------------------------------
  // How the engine matches at one position
  // ---------------------------------------------------------------------

  /** The literal `lit` occurs in `text` at index `k`. */
  predicate StartsAt(text: string, k: nat, lit: string)
  {
    k + |lit| <= |text| && text[k..k + |lit|] == lit
  }

  /** `https?://` at index `i`. The greedy `s?` takes an `s` when there is
      one; backtracking to the empty choice can only succeed when the
      character after `http` is `:`. The result is the index after `://`. */
  function SchemeEnd(text: string, i: nat): (r: Option<nat>)
  {
    if StartsAt(text, i, Https) then Some(i + |Https|)
    else if StartsAt(text, i, Http) then Some(i + |Http|)
    else None
  }

  /** `(?:www\.)?instagram\.com/` at index `k`: the greedy group is tried
      first, then the empty choice. The result is the index after the final
      `/`. */
  function HostEnd(text: string, k: nat): (r: Option<nat>)
  {
    if StartsAt(text, k, Www) && StartsAt(text, k + |Www|, Host) then Some(k + |Www| + |Host|)
    else if StartsAt(text, k, Host) then Some(k + |Host|)
    else None
  }

  /** End of the run of non-whitespace characters that begins at `k`: what the
      greedy `[^\s]+` consumes. */
  function TailEnd(text: string, k: nat): (r: nat)
    requires k <= |text|
    ensures k <= r <= |text|
    ensures forall m :: k <= m < r ==> !IsSpace(text[m])
    ensures r == |text| || IsSpace(text[r])
    decreases |text| - k
  {
    if k < |text| && !IsSpace(text[k]) then TailEnd(text, k + 1) else k
  }

  /** The end of the match the engine finds when it starts at `i`, if any.
      A match is never empty and never runs past the text. */
  function MatchAt(text: string, i: nat): (r: Option<nat>)
    ensures r.Some? ==> i < r.value <= |text|
  {
    match SchemeEnd(text, i)
    case None => None
    case Some(k) =>
      match HostEnd(text, k)
      case None => None
      case Some(m) =>
        if m < |text| && !IsSpace(text[m]) then Some(TailEnd(text, m)) else None
  }

  /** The search loop of `re.search`: try `attempt` at each start index from
      `i` to `last` in turn, and stop at the first one where it matches. */
  function FirstMatch(attempt: nat -> Option<nat>, i: nat, last: nat): (r: Option<Span>)
    requires i <= last
    ensures r.Some? ==> i <= r.value.start <= last && attempt(r.value.start) == Some(r.value.end)
    ensures r.Some? ==> forall k :: i <= k < r.value.start ==> attempt(k).None?
    ensures r.None? <==> forall k :: i <= k <= last ==> attempt(k).None?
    decreases last - i
  {
    match attempt(i)
    case Some(j) => Some(Span(i, j))
    case None => if i == last then None else FirstMatch(attempt, i + 1, last)
  }

  /** `re.search`: the span of the leftmost match in `text`. Every index up
      to and including `|text|` is tried. */
  function Search(text: string): (r: Option<Span>)
    ensures r.Some? ==> r.value.start <= |text| && MatchAt(text, r.value.start) == Some(r.value.end)
    ensures r.Some? ==> forall k :: 0 <= k < r.value.start ==> MatchAt(text, k).None?
    ensures r.None? <==> forall k :: 0 <= k <= |text| ==> MatchAt(text, k).None?
  {
    var attempt := (k: nat) => MatchAt(text, k);
    assert forall k: nat :: attempt(k) == MatchAt(text, k);
    FirstMatch(attempt, 0, |text|)
  }

  /** The search result is fixed by the first index where the engine
      matches. */
  lemma SearchFinds(text: string, s: nat, e: nat)
    requires s <= |text| && MatchAt(text, s) == Some(e)
    requires forall k :: 0 <= k < s ==> MatchAt(text, k).None?
    ensures Search(text) == Some(Span(s, e))
  {
    var r := Search(text);
    assert r.Some?;
    var t := r.value.start;
    if t < s {
      assert false;
    }
    assert !(s < t);
  }

  /** `extract_instagram_url(text)`: the text of the leftmost match, or None.
      A returned URL occurs in the text and is denoted by the pattern. */
  function ExtractInstagramUrl(text: string): (r: Option<string>)
    ensures r.Some? ==> InLanguage(r.value) && Contains(text, r.value)
  {
    match Search(text)
    case None => None
    case Some(sp) =>
      MatchAtSound(text, sp.start);
      Some(text[sp.start..sp.end])
  }

  // ---------------------------------------------------------------------
  // The engine agrees with the language
  // ---------------------------------------------------------------------

  /** A literal found at index `k` fixes the character at each offset. */
  lemma StartsAtChar(text: string, k: nat, lit: string, n: nat)
    requires StartsAt(text, k, lit) && n < |lit|
    ensures text[k + n] == lit[n]
  {
    assert text[k + n] == text[k..k + |lit|][n];
  }

  /** A concatenation occurs exactly when its two parts occur one after the
      other. */
  lemma StartsAtSplit(text: string, k: nat, a: string, b: string)
    ensures StartsAt(text, k, a + b) <==> StartsAt(text, k, a) && StartsAt(text, k + |a|, b)
  {
    if StartsAt(text, k, a) && StartsAt(text, k + |a|, b) {
      assert text[k..k + |a + b|] == text[k..k + |a|] + text[k + |a|..k + |a| + |b|];
    }
    if StartsAt(text, k, a + b) {
      assert text[k..k + |a|] == (a + b)[..|a|];
      assert text[k + |a|..k + |a| + |b|] == (a + b)[|a|..];
    }
  }

  /** The URL prefix the engine consumes at `i` when it gets past
      `instagram.com/`. */
  lemma PrefixOfEngine(text: string, i: nat, m: nat) returns (p: string)
    requires SchemeEnd(text, i).Some? && HostEnd(text, SchemeEnd(text, i).value) == Some(m)
    ensures IsUrlPrefix(p) && StartsAt(text, i, p) && m == i + |p|
  {
    var k := SchemeEnd(text, i).value;
    var scheme := if StartsAt(text, i, Https) then Https else Http;
    assert StartsAt(text, i, scheme) && k == i + |scheme|;
    if StartsAt(text, k, Www) && StartsAt(text, k + |Www|, Host) {
      StartsAtSplit(text, k, Www, Host);
      StartsAtSplit(text, i, scheme, Www + Host);
      assert scheme + (Www + Host) == scheme + Www + Host;
      p := scheme + Www + Host;
    } else {
      StartsAtSplit(text, i, scheme, Host);
      p := scheme + Host;
    }
  }

  /** Conversely, a URL prefix at `i` is consumed by the engine in full. */
  lemma EngineOfPrefix(text: string, i: nat, p: string)
    requires IsUrlPrefix(p) && StartsAt(text, i, p)
    ensures SchemeEnd(text, i).Some? && HostEnd(text, SchemeEnd(text, i).value) == Some(i + |p|)
  {
    var scheme := if p == Https + Host || p == Https + Www + Host then Https else Http;
    var host := if p == Http + Www + Host || p == Https + Www + Host then Www + Host else Host;
    assert p == scheme + host;
    StartsAtSplit(text, i, scheme, host);
    if scheme == Http {
      StartsAtChar(text, i, Http, 4);
      if StartsAt(text, i, Https) {
        StartsAtChar(text, i, Https, 4);
      }
    }
    var k := i + |scheme|;
    assert SchemeEnd(text, i) == Some(k);
    if host == Host {
      StartsAtChar(text, k, Host, 0);
      if StartsAt(text, k, Www) {
        StartsAtChar(text, k, Www, 0);
      }
    } else {
      StartsAtSplit(text, k, Www, Host);
    }
  }

  /** Match at an index: at any start index at most one of the four URL
      prefixes occurs. */
  lemma PrefixUnique(text: string, i: nat, p: string, q: string)
    requires IsUrlPrefix(p) && IsUrlPrefix(q)
    requires StartsAt(text, i, p) && StartsAt(text, i, q)
    ensures p == q
  {
    EngineOfPrefix(text, i, p);
    EngineOfPrefix(text, i, q);
  }

  /** A match the engine reports consists of a URL prefix and then the
      greedy tail, which starts with a non-whitespace character. */
  lemma MatchAtParts(text: string, i: nat) returns (p: string)
    requires MatchAt(text, i).Some?
    ensures IsUrlPrefix(p) && StartsAt(text, i, p) && i + |p| < |text| && !IsSpace(text[i + |p|])
    ensures MatchAt(text, i).value == TailEnd(text, i + |p|)
  {
    var k := SchemeEnd(text, i).value;
    var m := HostEnd(text, k).value;
    p := PrefixOfEngine(text, i, m);
  }

  /** A prefix at `i` followed by non-whitespace up to `j` is a prefixed
      tail, and conversely. */
  lemma PrefixedTailAt(text: string, i: nat, j: nat, p: string)
    requires i <= j <= |text|
    ensures PrefixedTail(text[i..j], p) <==>
      StartsAt(text, i, p) && i + |p| < j && forall n :: i + |p| <= n < j ==> !IsSpace(text[n])
  {
    var s := text[i..j];
    if i + |p| < j {
      assert s[..|p|] == text[i..i + |p|];
      forall n | i + |p| <= n < j ensures text[n] == s[|p|..][n - i - |p|] {
      }
    }
  }

  /** Every match the engine reports is in the language. */
  lemma MatchAtSound(text: string, i: nat)
    requires MatchAt(text, i).Some?
    ensures i < MatchAt(text, i).value <= |text|
    ensures InLanguage(text[i..MatchAt(text, i).value])
  {
    var p := MatchAtParts(text, i);
    var j := MatchAt(text, i).value;
    PrefixedTailAt(text, i, j, p);
  }

  /** Every substring in the language is found by the engine at its start,
      and ends no later than the engine's match. */
  lemma MatchAtComplete(text: string, i: nat, j: nat)
    requires i <= j <= |text| && InLanguage(text[i..j])
    ensures MatchAt(text, i).Some? && j <= MatchAt(text, i).value
  {
    var p :| IsUrlPrefix(p) && PrefixedTail(text[i..j], p);
    PrefixedTailAt(text, i, j, p);
    EngineOfPrefix(text, i, p);
    TailEndCovers(text, i + |p|, j);
  }

  /** The greedy tail reaches past every run of non-whitespace characters
      that starts where it starts. */
  lemma TailEndCovers(text: string, m: nat, j: nat)
    requires m <= j <= |text|
    requires forall n :: m <= n < j ==> !IsSpace(text[n])
    ensures j <= TailEnd(text, m)
  {
  }

  /** The engine matches at `i` exactly when the language has a substring
      starting at `i`. */
  lemma MatchAtIff(text: string, i: nat)
    requires i <= |text|
    ensures MatchAt(text, i).Some? <==> MatchExistsAt(text, i)
  {
    if MatchAt(text, i).Some? {
      MatchAtSound(text, i);
    }
    if MatchExistsAt(text, i) {
      var j :| i <= j <= |text| && InLanguage(text[i..j]);
      MatchAtComplete(text, i, j);
    }
  }

  // ---------------------------------------------------------------------
  // Properties of the extractor
  // ---------------------------------------------------------------------

  /** `extract_instagram_url` returns None exactly when no substring of the
      text is in the language of the pattern. */
  lemma ExtractNoneIff(text: string)
    ensures ExtractInstagramUrl(text).None? <==>
      forall i, j :: 0 <= i <= j <= |text| ==> !InLanguage(text[i..j])
  {
    if ExtractInstagramUrl(text).None? {
      forall i, j | 0 <= i <= j <= |text| ensures !InLanguage(text[i..j]) {
        if InLanguage(text[i..j]) {
          MatchAtComplete(text, i, j);
        }
      }
    } else {
      var sp := Search(text).value;
      MatchAtSound(text, sp.start);
    }
  }

  /** A returned URL is a substring of the text that the pattern denotes:
      `http://` or `https://`, an optional `www.`, `instagram.com/`, then at
      least one character, none of them whitespace. */
  lemma ExtractSound(text: string)
    requires ExtractInstagramUrl(text).Some?
    ensures var sp := Search(text).value;
      && sp.start < sp.end <= |text|
      && ExtractInstagramUrl(text).value == text[sp.start..sp.end]
      && InLanguage(text[sp.start..sp.end])
  {
    MatchAtSound(text, Search(text).value.start);
  }

  lemma NoSpaceAppend(a: string, b: string)
    requires NoSpace(a) && NoSpace(b)
    ensures NoSpace(a + b)
  {
    forall k | 0 <= k < |a + b| ensures !IsSpace((a + b)[k]) {
      if k >= |a| {
        assert (a + b)[k] == b[k - |a|];
      }
    }
  }

  /** The literal pieces of the pattern hold no whitespace. */
  lemma PrefixNoSpace(p: string)
    requires IsUrlPrefix(p)
    ensures NoSpace(p)
  {
    assert NoSpace(Http) && NoSpace(Https) && NoSpace(Www) && NoSpace(Host);
    NoSpaceAppend(Http, Www);
    NoSpaceAppend(Https, Www);
    NoSpaceAppend(Http, Host);
    NoSpaceAppend(Https, Host);
    NoSpaceAppend(Http + Www, Host);
    NoSpaceAppend(Https + Www, Host);
  }

  /** A returned URL is whitespace-free and strictly longer than its prefix. */
  lemma ExtractShape(text: string)
    requires ExtractInstagramUrl(text).Some?
    ensures var u := ExtractInstagramUrl(text).value;
      && NoSpace(u)
      && exists p :: IsUrlPrefix(p) && |p| < |u| && u[..|p|] == p
  {
    ExtractSound(text);
    var u := ExtractInstagramUrl(text).value;
    var p :| IsUrlPrefix(p) && PrefixedTail(u, p);
    PrefixNoSpace(p);
    assert u == p + u[|p|..];
    NoSpaceAppend(p, u[|p|..]);
  }

  /** Leftmost: no index before the returned match starts a substring in the
      language. With two links, the first one is returned. */
  lemma ExtractLeftmost(text: string)
    requires ExtractInstagramUrl(text).Some?
    ensures forall i, j :: 0 <= i < Search(text).value.start && i <= j <= |text| ==> !InLanguage(text[i..j])
  {
    var sp := Search(text).value;
    forall i, j | 0 <= i < sp.start && i <= j <= |text| ensures !InLanguage(text[i..j]) {
      if InLanguage(text[i..j]) {
        MatchAtComplete(text, i, j);
      }
    }
  }

  /** Longest: the returned match cannot be extended, since the character
      after it is whitespace or the text ends there; so trailing punctuation
      is kept in the URL. */
  lemma ExtractLongest(text: string)
    requires ExtractInstagramUrl(text).Some?
    ensures var sp := Search(text).value;
      && (sp.end == |text| || IsSpace(text[sp.end]))
      && forall j :: sp.end < j <= |text| ==> !InLanguage(text[sp.start..j])
  {
    var sp := Search(text).value;
    forall j | sp.end < j <= |text| ensures !InLanguage(text[sp.start..j]) {
      if InLanguage(text[sp.start..j]) {
        MatchAtComplete(text, sp.start, j);
      }
    }
  }

  /** Extracting from an extracted URL gives the same URL back. */
  lemma ExtractRefind(text: string)
    requires ExtractInstagramUrl(text).Some?
    ensures ExtractInstagramUrl(ExtractInstagramUrl(text).value) == ExtractInstagramUrl(text)
  {
    var u := ExtractInstagramUrl(text).value;
    ExtractSound(text);
    assert u[0..|u|] == u;
    MatchAtComplete(u, 0, |u|);
    MatchAtSound(u, 0);
    SearchFinds(u, 0, |u|);
  }

  /** Matching is case-sensitive and needs the lower-case scheme: a text in
      which no `h` is followed by `t` holds no URL. */
  lemma ExtractNeedsHttp(text: string)
    requires forall k :: 0 <= k < |text| - 1 ==> !(text[k] == 'h' && text[k + 1] == 't')
    ensures ExtractInstagramUrl(text) == None
  {
    forall i | 0 <= i <= |text| ensures MatchAt(text, i).None? {
      if MatchAt(text, i).Some? {
        MatchStartsWithHt(text, i);
      }
    }
  }

  /** Every match begins with a lower-case `ht`. */
  lemma MatchStartsWithHt(text: string, i: nat)
    requires MatchAt(text, i).Some?
    ensures i + 1 < |text| && text[i] == 'h' && text[i + 1] == 't'
  {
    var scheme := if StartsAt(text, i, Https) then Https else Http;
    assert StartsAt(text, i, scheme);
    StartsAtChar(text, i, scheme, 0);
    StartsAtChar(text, i, scheme, 1);
  }

  /** Every string of the language is free of whitespace. */
  lemma InLanguageNoSpace(s: string)
    requires InLanguage(s)
    ensures NoSpace(s)
  {
    var p :| IsUrlPrefix(p) && PrefixedTail(s, p);
    PrefixNoSpace(p);
    assert s == p + s[|p|..];
    NoSpaceAppend(p, s[|p|..]);
  }

  /** In `pre + rest`, where `pre` holds no URL and ends in whitespace, the
      engine matches at no index of `pre`. */
  lemma NoMatchInPrefix(pre: string, rest: string, k: nat)
    requires ExtractInstagramUrl(pre) == None
    requires pre == [] || IsSpace(pre[|pre| - 1])
    requires k < |pre|
    ensures MatchAt(pre + rest, k).None?
  {
    var text := pre + rest;
    if MatchAt(text, k).Some? {
      var j := MatchAt(text, k).value;
      MatchAtSound(text, k);
      if j <= |pre| {
        assert text[k..j] == pre[k..j];
        ExtractNoneIff(pre);
      } else {
        assert text[k..j][|pre| - 1 - k] == pre[|pre| - 1];
        InLanguageNoSpace(text[k..j]);
      }
    }
  }

  /** A URL followed by whitespace or the end of the text is matched whole
      at its first index. */
  lemma MatchAtDelimited(text: string, s: nat, e: nat)
    requires s <= e <= |text| && InLanguage(text[s..e])
    requires e == |text| || IsSpace(text[e])
    ensures MatchAt(text, s) == Some(e)
  {
    MatchAtComplete(text, s, e);
    var j := MatchAt(text, s).value;
    MatchAtSound(text, s);
    if j > e {
      assert text[s..j][e - s] == text[e];
      InLanguageNoSpace(text[s..j]);
    }
  }

  /** A URL that the text holds between whitespace (or the ends of the text),
      after a part with no URL, is the one returned, whole. */
  lemma ExtractDelimited(pre: string, url: string, post: string)
    requires ExtractInstagramUrl(pre) == None
    requires pre == [] || IsSpace(pre[|pre| - 1])
    requires InLanguage(url)
    requires post == [] || IsSpace(post[0])
    ensures ExtractInstagramUrl(pre + url + post) == Some(url)
  {
    var text := pre + url + post;
    assert text == pre + (url + post);
    forall k | 0 <= k < |pre| ensures MatchAt(text, k).None? {
      NoMatchInPrefix(pre, url + post, k);
    }
    var e := |pre| + |url|;
    assert text[|pre|..e] == url;
    assert e < |text| ==> text[e] == post[0];
    MatchAtDelimited(text, |pre|, e);
    SearchFinds(text, |pre|, e);
  }

  // ---------------------------------------------------------------------
  // The route handler `save_instagram_data`
  // ---------------------------------------------------------------------

  const SuccessMessage := "Instagram data saved successfully!"

  /** The JSON body and HTTP status code the handler answers with;
      `instagramUrl` is JSON null when None. */
  datatype Response = Response(status: string, message: string, instagramUrl: Option<string>, code: nat)

  /** What a request to the route ends in: a reply, or an uncaught exception
      (which the web framework answers with status 500). */
  datatype Outcome = Reply(response: Response) | Fault

  /** The handler as written: it reads `Body` from the form fields and passes
      it to the extractor, which raises when `Body` is absent (the value is
      then None, and a regular-expression search of None is a type error). */
  function SaveInstagramDataAsWritten(form: map<string, string>): (r: Outcome)
    ensures r.Fault? <==> "Body" !in form
    ensures r.Reply? ==> r.response.status == "success" && r.response.code == 200
    ensures r.Reply? ==> r.response.instagramUrl == ExtractInstagramUrl(form["Body"])
  {
    if "Body" in form then
      Reply(Response("success", SuccessMessage, ExtractInstagramUrl(form["Body"]), 200))
    else
      Fault
  }

  /** The `Body` field of the form, or the empty text when it is absent. */
  function BodyOf(form: map<string, string>): string
  {
    if "Body" in form then form["Body"] else ""
  }

  /** The handler with an absent `Body` read as the empty text: every
      request gets the fixed success reply, carrying the extracted URL or
      null. */
  function SaveInstagramData(form: map<string, string>): (r: Response)
    ensures r.status == "success" && r.message == SuccessMessage && r.code == 200
    ensures r.instagramUrl == ExtractInstagramUrl(BodyOf(form))
  {
    Response("success", SuccessMessage, ExtractInstagramUrl(BodyOf(form)), 200)
  }

  /** The reply carries a URL only when the form has a `Body`, and that URL
      is a substring of it that the pattern denotes. */
  lemma SaveInstagramDataUrl(form: map<string, string>)
    ensures var url := SaveInstagramData(form).instagramUrl;
      url.Some? ==> "Body" in form && InLanguage(url.value) && Contains(form["Body"], url.value)
  {
    if SaveInstagramData(form).instagramUrl.Some? {
      ExtractSound(BodyOf(form));
    }
  }

  /** Wherever the handler as written replies, the corrected handler gives
      the same reply. */
  lemma SaveInstagramDataAgrees(form: map<string, string>)
    ensures SaveInstagramDataAsWritten(form).Reply? ==>
      SaveInstagramDataAsWritten(form).response == SaveInstagramData(form)
  {
  }

  /** A request whose form has no `Body` field, such as one sent with a JSON
      body, makes the handler as written fail; the corrected handler answers
      it with the success reply and a null URL. */
  lemma JsonRequestFaults()
    ensures SaveInstagramDataAsWritten(map[]) == Fault
    ensures SaveInstagramData(map[]) == Response("success", SuccessMessage, None, 200)
  {
    assert !StartsAt("", 0, Https) && !StartsAt("", 0, Http);
  }
}
