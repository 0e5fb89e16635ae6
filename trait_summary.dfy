/**
 * learn/trait_lib_1: two kinds of item with a `Summary`. A news archive
 * keeps the trait's default summary; a tweet overrides it.
 */
module TraitSummary {
  import opened Wrappers

  /** `NewsArchive`. */
  datatype NewsArchive = NewsArchive(headline: string, location: string, author: string, content: string)

  /** `Tweet`. */
  datatype Tweet = Tweet(username: string, content: string, reply: bool, retweet: bool)

  /** The types that implement `Summary`. */
  datatype Item = News(news: NewsArchive) | TweetItem(tweet: Tweet)

  /** The default body of `Summary::summarize`. */
  const READ_MORE: string := "(Read more...)"

  /** `summarize`: the default for a news archive, `format!("{}: {}", username, content)` for a tweet. */
  function Summarize(item: Item): string
  {
    match item
    case News(_) => READ_MORE
    case TweetItem(t) => t.username + ": " + t.content
  }

  /** A news archive's summary is the default whatever its fields hold. */
  lemma NewsSummaryIgnoresFields(a: NewsArchive, b: NewsArchive)
    ensures Summarize(News(a)) == Summarize(News(b)) == "(Read more...)"
  {
  }

  /** A tweet's summary is its user name, a colon and a space, then its text: both can be read back from it. */
  lemma TweetSummaryParts(t: Tweet)
    ensures var s := Summarize(TweetItem(t)); var u := |t.username|;
      && |s| == u + 2 + |t.content|
      && s[..u] == t.username && s[u..u + 2] == ": " && s[u + 2..] == t.content
  {
  }

  /** Two tweets with the same user name have the same summary exactly when their texts are equal. */
  lemma TweetSummaryInjective(t1: Tweet, t2: Tweet)
    requires t1.username == t2.username
    ensures Summarize(TweetItem(t1)) == Summarize(TweetItem(t2)) <==> t1.content == t2.content
  {
    TweetSummaryParts(t1);
    TweetSummaryParts(t2);
  }

  /** `get_headline`: the headline itself. */
  function GetHeadline(n: NewsArchive): (h: string)
    ensures h == n.headline
  {
    n.headline
  }

  /** A Rust `usize` on a 64-bit target. */
  type USize = x: int | 0 <= x < 0x1_0000_0000_0000_0000

  /** `add` in a debug build: the sum, or None where `+` overflows and panics. */
  function Add(left: USize, right: USize): (r: Option<USize>)
    ensures r.Some? <==> left + right < 0x1_0000_0000_0000_0000
    ensures r.Some? ==> r.value == left + right
  {
    if left + right < 0x1_0000_0000_0000_0000 then Some(left + right) else None
  }

  /** The crate's test: `add(2, 2) == 4`. */
  lemma AddTwoTwo()
    ensures Add(2, 2) == Some(4)
  {
  }
}
