/** The two category rules: `map_category`, a keyword classifier over the
    lower-cased URL and content of an article, and the URL-segment rule of the
    standalone scraper, which reads the category off `link.split('/')`. */
module Categories {
  import opened Text

  datatype Category = Sports | Business | Tech | Entertainment | Politics | General

  /** The fields of a scraped article row that `map_category` reads. */
  datatype Article = Article(url: string, headline: string, content: string)

  /** `map_category(row)`: URL keywords first, then content keywords, else
      General; it is exactly the table classifier on the lower-cased fields. */
  function MapCategory(row: Article): (category: Category)
    ensures category == RuleCategory(Lower(row.url), Lower(row.content))
  {
    var url := Lower(row.url);
    var content := Lower(row.content);
    var headline := Lower(row.headline);
    UrlRulesUnfold(url);
    ContentRulesUnfold(content);
    if Contains(url, "sport") || Contains(url, "cricket") || Contains(url, "football") then Sports
    else if Contains(url, "business") || Contains(url, "economy") || Contains(url, "market") then Business
    else if Contains(url, "tech") || Contains(url, "technology") || Contains(url, "science") then Tech
    else if Contains(url, "entertainment") || Contains(url, "movie") || Contains(url, "film") then Entertainment
    else if Contains(url, "politics") || Contains(url, "election") || Contains(url, "government") then Politics
    else if Contains(content, "politics") || Contains(content, "election") then Politics
    else if Contains(content, "sport") || Contains(content, "match") then Sports
    else if Contains(content, "business") || Contains(content, "stock") then Business
    else if Contains(content, "movie") || Contains(content, "cinema") then Entertainment
    else if Contains(content, "technology") || Contains(content, "software") then Tech
    else General
  }

  /** A keyword rule: the category given when any of the keywords occurs. */
  datatype Rule = Rule(category: Category, keywords: seq<string>)

  /** The URL rules, in the order they are tried. */
  const UrlRules: seq<Rule> := [
    Rule(Sports, ["sport", "cricket", "football"]),
    Rule(Business, ["business", "economy", "market"]),
    Rule(Tech, ["tech", "technology", "science"]),
    Rule(Entertainment, ["entertainment", "movie", "film"]),
    Rule(Politics, ["politics", "election", "government"])
  ]

  /** The content rules, in the order they are tried (not the URL order). */
  const ContentRules: seq<Rule> := [
    Rule(Politics, ["politics", "election"]),
    Rule(Sports, ["sport", "match"]),
    Rule(Business, ["business", "stock"]),
    Rule(Entertainment, ["movie", "cinema"]),
    Rule(Tech, ["technology", "software"])
  ]

  /** Some keyword of the list occurs in `s`. */
  predicate AnyContained(s: string, keywords: seq<string>)
  {
    keywords != [] && (Contains(s, keywords[0]) || AnyContained(s, keywords[1..]))
  }

  lemma AnyOfTwo(s: string, a: string, b: string)
    ensures AnyContained(s, [a, b]) <==> Contains(s, a) || Contains(s, b)
  {
    assert [a, b][1..] == [b];
    assert [b][1..] == [];
    assert AnyContained(s, [b]) <==> Contains(s, b);
  }

  lemma AnyOfThree(s: string, a: string, b: string, c: string)
    ensures AnyContained(s, [a, b, c]) <==> Contains(s, a) || Contains(s, b) || Contains(s, c)
  {
    assert [a, b, c][1..] == [b, c];
    AnyOfTwo(s, b, c);
  }

  predicate Fires(rule: Rule, s: string)
  {
    AnyContained(s, rule.keywords)
  }

  /** The category of the first rule that fires on `s`, if any. */
  function FirstFiring(rules: seq<Rule>, s: string): (r: Option<Category>)
    ensures r.None? <==> forall i :: 0 <= i < |rules| ==> !Fires(rules[i], s)
    ensures r.Some? ==>
      exists i :: 0 <= i < |rules| && Fires(rules[i], s) && rules[i].category == r.value &&
        forall j :: 0 <= j < i ==> !Fires(rules[j], s)
  {
    if rules == [] then None
    else if Fires(rules[0], s) then Some(rules[0].category)
    else
      var r := FirstFiring(rules[1..], s);
      assert forall i :: 1 <= i < |rules| ==> rules[i] == rules[1..][i - 1];
      if r.Some? then
        var i :| 0 <= i < |rules[1..]| && Fires(rules[1..][i], s) && rules[1..][i].category == r.value &&
          forall j :: 0 <= j < i ==> !Fires(rules[1..][j], s);
        assert Fires(rules[i + 1], s) && forall j :: 0 <= j < i + 1 ==> !Fires(rules[j], s);
        r
      else r
  }

  /** The classifier written as its two rule tables. */
  function RuleCategory(url: string, content: string): Category
  {
    match FirstFiring(UrlRules, url)
    case Some(c) => c
    case None =>
      match FirstFiring(ContentRules, content)
      case Some(c) => c
      case None => General
  }

  /** One row of a table: the first rule decides if it fires, otherwise the rest do. */
  lemma FirstFiringStep(rules: seq<Rule>, s: string)
    requires rules != []
    ensures FirstFiring(rules, s) ==
      if Fires(rules[0], s) then Some(rules[0].category) else FirstFiring(rules[1..], s)
  {
  }

  /** Five-row tables, unfolded row by row. */
  lemma FiveRows(rules: seq<Rule>, s: string)
    requires |rules| == 5
    ensures FirstFiring(rules, s) ==
      if Fires(rules[0], s) then Some(rules[0].category)
      else if Fires(rules[1], s) then Some(rules[1].category)
      else if Fires(rules[2], s) then Some(rules[2].category)
      else if Fires(rules[3], s) then Some(rules[3].category)
      else if Fires(rules[4], s) then Some(rules[4].category)
      else None
  {
    var t1 := rules[1..];
    var t2 := t1[1..];
    var t3 := t2[1..];
    var t4 := t3[1..];
    FirstFiringStep(rules, s);
    FirstFiringStep(t1, s);
    FirstFiringStep(t2, s);
    FirstFiringStep(t3, s);
    FirstFiringStep(t4, s);
    assert t4[1..] == [];
  }

  lemma UrlRulesUnfold(url: string)
    ensures FirstFiring(UrlRules, url) ==
      if Contains(url, "sport") || Contains(url, "cricket") || Contains(url, "football") then Some(Sports)
      else if Contains(url, "business") || Contains(url, "economy") || Contains(url, "market") then Some(Business)
      else if Contains(url, "tech") || Contains(url, "technology") || Contains(url, "science") then Some(Tech)
      else if Contains(url, "entertainment") || Contains(url, "movie") || Contains(url, "film") then Some(Entertainment)
      else if Contains(url, "politics") || Contains(url, "election") || Contains(url, "government") then Some(Politics)
      else None
  {
    var rs := UrlRules;
    FiveRows(rs, url);
    AnyOfThree(url, "sport", "cricket", "football");
    AnyOfThree(url, "business", "economy", "market");
    AnyOfThree(url, "tech", "technology", "science");
    AnyOfThree(url, "entertainment", "movie", "film");
    AnyOfThree(url, "politics", "election", "government");
  }

  lemma ContentRulesUnfold(content: string)
    ensures FirstFiring(ContentRules, content) ==
      if Contains(content, "politics") || Contains(content, "election") then Some(Politics)
      else if Contains(content, "sport") || Contains(content, "match") then Some(Sports)
      else if Contains(content, "business") || Contains(content, "stock") then Some(Business)
      else if Contains(content, "movie") || Contains(content, "cinema") then Some(Entertainment)
      else if Contains(content, "technology") || Contains(content, "software") then Some(Tech)
      else None
  {
    var rs := ContentRules;
    FiveRows(rs, content);
    AnyOfTwo(content, "politics", "election");
    AnyOfTwo(content, "sport", "match");
    AnyOfTwo(content, "business", "stock");
    AnyOfTwo(content, "movie", "cinema");
    AnyOfTwo(content, "technology", "software");
  }

  /** When some URL rule fires, the first one that fires decides, whatever the content. */
  lemma UrlRuleDecides(row: Article, i: nat)
    requires i < |UrlRules| && Fires(UrlRules[i], Lower(row.url))
    requires forall j :: 0 <= j < i ==> !Fires(UrlRules[j], Lower(row.url))
    ensures MapCategory(row) == UrlRules[i].category
  {
    var r := FirstFiring(UrlRules, Lower(row.url));
    var k :| 0 <= k < |UrlRules| && Fires(UrlRules[k], Lower(row.url)) && UrlRules[k].category == r.value &&
      forall j :: 0 <= j < k ==> !Fires(UrlRules[j], Lower(row.url));
    assert k == i;
  }

  /** When no URL rule fires, the first content rule that fires decides. */
  lemma ContentRuleDecides(row: Article, i: nat)
    requires forall j :: 0 <= j < |UrlRules| ==> !Fires(UrlRules[j], Lower(row.url))
    requires i < |ContentRules| && Fires(ContentRules[i], Lower(row.content))
    requires forall j :: 0 <= j < i ==> !Fires(ContentRules[j], Lower(row.content))
    ensures MapCategory(row) == ContentRules[i].category
  {
    var r := FirstFiring(ContentRules, Lower(row.content));
    var k :| 0 <= k < |ContentRules| && Fires(ContentRules[k], Lower(row.content)) && ContentRules[k].category == r.value &&
      forall j :: 0 <= j < k ==> !Fires(ContentRules[j], Lower(row.content));
    assert k == i;
  }

  /** A URL keyword hit makes the content irrelevant. */
  lemma UrlHitIgnoresContent(row: Article, content: string)
    requires exists i :: 0 <= i < |UrlRules| && Fires(UrlRules[i], Lower(row.url))
    ensures MapCategory(row.(content := content)) == MapCategory(row)
  {
  }

  /** No rule of either table gives General, so the table classifier falls back
      to General exactly when no rule of either table fires. */
  lemma RuleCategoryGeneral(url: string, content: string)
    ensures forall i :: 0 <= i < |UrlRules| ==> UrlRules[i].category != General
    ensures forall i :: 0 <= i < |ContentRules| ==> ContentRules[i].category != General
    ensures RuleCategory(url, content) == General <==>
      (forall i :: 0 <= i < |UrlRules| ==> !Fires(UrlRules[i], url)) &&
      (forall i :: 0 <= i < |ContentRules| ==> !Fires(ContentRules[i], content))
  {
    assert forall i :: 0 <= i < |UrlRules| ==> UrlRules[i].category != General;
    assert forall i :: 0 <= i < |ContentRules| ==> ContentRules[i].category != General;
  }

  /** General exactly when no URL keyword occurs in the URL and no content
      keyword occurs in the content. */
  lemma GeneralIffNoKeyword(row: Article)
    ensures MapCategory(row) == General <==>
      (forall i :: 0 <= i < |UrlRules| ==> !Fires(UrlRules[i], Lower(row.url))) &&
      (forall i :: 0 <= i < |ContentRules| ==> !Fires(ContentRules[i], Lower(row.content)))
  {
    RuleCategoryGeneral(Lower(row.url), Lower(row.content));
  }

  /** The headline is lower-cased but never consulted. */
  lemma HeadlineIgnored(row: Article, headline: string)
    ensures MapCategory(row.(headline := headline)) == MapCategory(row)
  {
  }

  /** Matching is on lower-cased text: upper-case letters in the URL or content
      make no difference. */
  lemma CaseInsensitive(row: Article)
    ensures MapCategory(row.(url := Lower(row.url), content := Lower(row.content))) == MapCategory(row)
  {
    LowerIdempotent(row.url);
    LowerIdempotent(row.content);
  }

  /** The URL and content orders differ: text mentioning both a sport and an
      election is Sports in the URL but Politics in the content. */
  lemma SportAndElection(s: string, other: string, headline: string)
    requires Contains(Lower(s), "sport") && Contains(Lower(s), "election")
    requires forall i :: 0 <= i < |UrlRules| ==> !Fires(UrlRules[i], Lower(other))
    ensures MapCategory(Article(s, headline, other)) == Sports
    ensures MapCategory(Article(other, headline, s)) == Politics
  {
    UrlRulesUnfold(Lower(s));
    ContentRulesUnfold(Lower(s));
  }

  /** The URL-segment rule of the standalone scraper: the segment after the
      first `news` segment, capitalised; failing a `news` segment, an exact
      `sport`, `business` or `entertainment` segment; otherwise General. */
  function SegmentCategory(link: string): (category: string)
    ensures var parts := Split(link, '/');
      "news" !in parts ==>
        (category == "Sport" <==> "sport" in parts) &&
        (category == "Business" <==> "sport" !in parts && "business" in parts) &&
        (category == "Entertainment" <==> "sport" !in parts && "business" !in parts && "entertainment" in parts) &&
        (category == "General" <==> "sport" !in parts && "business" !in parts && "entertainment" !in parts)
  {
    var parts := Split(link, '/');
    if "news" in parts then
      var idx := FirstIndex(parts, "news");
      if idx + 1 < |parts| then Capitalize(parts[idx + 1]) else "General"
    else if "sport" in parts then "Sport"
    else if "business" in parts then "Business"
    else if "entertainment" in parts then "Entertainment"
    else "General"
  }

  /** A `news` segment that is not the last: the category is the next segment,
      first letter upper case and the rest lower case, whatever other segments say. */
  lemma NewsSegmentDecides(link: string, i: nat)
    requires var parts := Split(link, '/');
      i + 1 < |parts| && parts[i] == "news" && "news" !in parts[..i]
    ensures var next := Split(link, '/')[i + 1];
      var category := SegmentCategory(link);
      |category| == |next| &&
      (next != [] ==> category[0] == UpperChar(next[0])) &&
      (forall j :: 1 <= j < |next| ==> category[j] == LowerChar(next[j]))
  {
    var parts := Split(link, '/');
    assert "news" in parts;
    var idx := FirstIndex(parts, "news");
    assert idx == i;
  }

  /** A `news` segment that is the last one leaves the category General, even
      when a `sport`, `business` or `entertainment` segment comes before it. */
  lemma NewsLastStaysGeneral(link: string)
    requires var parts := Split(link, '/');
      parts[|parts| - 1] == "news" && "news" !in parts[..|parts| - 1]
    ensures SegmentCategory(link) == "General"
  {
    var parts := Split(link, '/');
    assert "news" in parts;
    var idx := FirstIndex(parts, "news");
    assert idx == |parts| - 1;
  }
}
