/** The messages of the endpoint's test script, and a few more, with the URL
    the extractor returns for each. Each message is written as the text
    before the link, the link, and the text after it. */
module InstagramExamples {
  import opened InstagramRoutes

  /** A URL prefix followed by a non-empty tail without whitespace is in
      the language. */
  lemma UrlInLanguage(prefix: string, tail: string)
    requires IsUrlPrefix(prefix) && |tail| > 0 && NoSpace(tail)
    ensures InLanguage(prefix + tail)
  {
    var url := prefix + tail;
    assert url[..|prefix|] == prefix && url[|prefix|..] == tail;
    assert PrefixedTail(url, prefix);
  }

  /** A message made of text in which no `h` is followed by `t` and which
      ends in whitespace, then a URL, then text that starts with whitespace,
      yields that URL. */
  lemma DelimitedMessage(before: string, prefix: string, tail: string, after: string)
    requires forall k :: 0 <= k < |before| - 1 ==> !(before[k] == 'h' && before[k + 1] == 't')
    requires before == [] || IsSpace(before[|before| - 1])
    requires IsUrlPrefix(prefix) && |tail| > 0 && NoSpace(tail)
    requires after == [] || IsSpace(after[0])
    ensures ExtractInstagramUrl(before + (prefix + tail) + after) == Some(prefix + tail)
  {
    ExtractNeedsHttp(before);
    UrlInLanguage(prefix, tail);
    ExtractDelimited(before, prefix + tail, after);
  }

  // "Check out this reel: https://www.instagram.com/reel/ABC123xyz/"
  const ReelBefore := "Check out this reel: "
  const ReelUrl := Https + Www + Host + "reel/ABC123xyz/"

  lemma ReelMessage()
    ensures ExtractInstagramUrl(ReelBefore + ReelUrl) == Some(ReelUrl)
  {
    DelimitedMessage(ReelBefore, Https + Www + Host, "reel/ABC123xyz/", "");
    assert ReelBefore + ReelUrl + "" == ReelBefore + ReelUrl;
  }

  // "Look at this https://instagram.com/p/DEF456/ amazing post!"
  const PostBefore := "Look at this "
  const PostUrl := Https + Host + "p/DEF456/"
  const PostAfter := " amazing post!"

  lemma PostMessage()
    ensures ExtractInstagramUrl(PostBefore + PostUrl + PostAfter) == Some(PostUrl)
  {
    DelimitedMessage(PostBefore, Https + Host, "p/DEF456/", PostAfter);
  }

  const NoLinkText := "Just a message with no Instagram link"

  lemma MessageWithoutLink()
    ensures ExtractInstagramUrl(NoLinkText) == None
  {
    ExtractNeedsHttp(NoLinkText);
  }

  // "Multiple links: https://www.instagram.com/reel/GHI789/ and https://instagram.com/reel/JKL012/"
  const TwoBefore := "Multiple links: "
  const FirstUrl := Https + Www + Host + "reel/GHI789/"
  const TwoAfter := " and https://instagram.com/reel/JKL012/"

  /** With two links, the first is returned. */
  lemma TwoLinksMessage()
    ensures ExtractInstagramUrl(TwoBefore + FirstUrl + TwoAfter) == Some(FirstUrl)
  {
    DelimitedMessage(TwoBefore, Https + Www + Host, "reel/GHI789/", TwoAfter);
  }

  // "Wow http://instagram.com/p/X1!"
  const ExclaimBefore := "Wow "
  const ExclaimUrl := Http + Host + "p/X1!"

  /** Punctuation attached to the link stays in the returned URL. */
  lemma TrailingPunctuationKept()
    ensures ExtractInstagramUrl(ExclaimBefore + ExclaimUrl) == Some(ExclaimUrl)
    ensures ExclaimUrl[|ExclaimUrl| - 1] == '!'
  {
    DelimitedMessage(ExclaimBefore, Http + Host, "p/X1!", "");
    assert ExclaimBefore + ExclaimUrl + "" == ExclaimBefore + ExclaimUrl;
  }

  const UpperCaseText := "HTTPS://INSTAGRAM.COM/x"

  /** An upper-case scheme and host are not matched. */
  lemma UpperCaseLink()
    ensures ExtractInstagramUrl(UpperCaseText) == None
  {
    ExtractNeedsHttp(UpperCaseText);
  }

  /** The form-encoded request of the test script gets the success reply
      with the reel's URL. */
  lemma ReelRequest()
    ensures SaveInstagramData(map["Body" := ReelBefore + ReelUrl])
      == Response("success", "Instagram data saved successfully!", Some(ReelUrl), 200)
  {
    ReelMessage();
  }
}
