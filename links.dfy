/**
  Link gathering for one issue: the domain allow-list (`is_valid_domain`),
  web links (`extract_web_links`), remote links (`extract_remotelinks`) and
  the outward-issue loop of `fetch_jira_issues`. The two spreadsheet scripts
  hold identical copies of this code; `jira_rn.py` renders the same links as
  HTML (module Html).

  `urlparse(url).netloc` is the parameter `netloc`; the JIRA calls are inputs.
  The result is the concatenation of the three sources, each filtered to the
  allow-list, in a fixed order and without deduplication.
*/
module Links {
  import opened Wrappers
  import opened Text

  /** One entry of a record's `External Links`: `{"url": ..., "title": ...}`. */
  datatype Link = Link(url: string, title: string)

  /**
    One element of `issue.fields.issuelinks`: the key of its `outwardIssue`
    when it has one, and its `object.url` when it has an `object` with a `url`.
  */
  datatype IssueLink = IssueLink(outwardKey: Option<string>, objectUrl: Option<string>)

  /** What `jira.remote_links(key)` gave: the `object.url` of each remote link that has one, or a JIRAError. */
  datatype RemoteLinks = Fetched(urls: seq<Option<string>>) | FetchFailed

  /** `is_valid_domain` on the netloc of a URL: a plain suffix test. */
  predicate IsValidDomain(netloc: string) {
    EndsWith(netloc, "projekt.nak.hu") || EndsWith(netloc, "rt5.nak.hu")
  }

  /** The suffix test accepts anything in front of an allowed suffix, with or without a dot. */
  lemma SuffixTestIgnoresPrefix(prefix: string, netloc: string)
    requires IsValidDomain(netloc)
    ensures IsValidDomain(prefix + netloc)
  {
    var s := prefix + netloc;
    if EndsWith(netloc, "projekt.nak.hu") {
      assert s[|s| - 14..] == netloc[|netloc| - 14..];
    } else {
      assert s[|s| - 10..] == netloc[|netloc| - 10..];
    }
  }

  lemma DomainExamples()
    ensures IsValidDomain("sub.projekt.nak.hu") && IsValidDomain("x" + "projekt.nak.hu")
    ensures IsValidDomain("rt5.nak.hu") && !IsValidDomain("evil.com")
  {
    SuffixTestIgnoresPrefix("sub.", "projekt.nak.hu");
    SuffixTestIgnoresPrefix("x", "projekt.nak.hu");
    assert "sub.projekt.nak.hu" == "sub." + "projekt.nak.hu";
  }

  /** The browse URL of an issue key: `f"{jira_url}/browse/{key}"`. */
  function BrowseUrl(jiraUrl: string, key: string): string {
    jiraUrl + "/browse/" + key
  }

  // ---------------------------------------------------------------------------
  // Filtering one source
  // ---------------------------------------------------------------------------

  /** Keeps the links `f` yields, in the order of `xs`. */
  function FilterMap<T>(xs: seq<T>, f: T -> Option<Link>): (r: seq<Link>)
    ensures |r| <= |xs|
  {
    if xs == [] then []
    else FilterMap(xs[..|xs| - 1], f) + (match f(xs[|xs| - 1]) case Some(l) => [l] case None => [])
  }

  lemma {:induction false} FilterMapAppend<T>(xs: seq<T>, ys: seq<T>, f: T -> Option<Link>)
    ensures FilterMap(xs + ys, f) == FilterMap(xs, f) + FilterMap(ys, f)
    decreases |ys|
  {
    if ys == [] {
      assert xs + ys == xs;
    } else {
      assert (xs + ys)[..|xs + ys| - 1] == xs + ys[..|ys| - 1];
      FilterMapAppend(xs, ys[..|ys| - 1], f);
    }
  }

  /** Every kept link comes from some element of `xs`. */
  lemma {:induction false} FilterMapMember<T>(xs: seq<T>, f: T -> Option<Link>, k: nat)
    requires k < |FilterMap(xs, f)|
    ensures exists i :: 0 <= i < |xs| && f(xs[i]) == Some(FilterMap(xs, f)[k])
    decreases |xs|
  {
    var init := xs[..|xs| - 1];
    if k < |FilterMap(init, f)| {
      FilterMapMember(init, f, k);
      var i :| 0 <= i < |init| && f(init[i]) == Some(FilterMap(init, f)[k]);
      assert xs[i] == init[i];
    } else {
      assert f(xs[|xs| - 1]) == Some(FilterMap(xs, f)[k]);
    }
  }

  /** Every element that `f` keeps is in the result. */
  lemma {:induction false} FilterMapKeeps<T>(xs: seq<T>, f: T -> Option<Link>, i: nat)
    requires i < |xs| && f(xs[i]).Some?
    ensures f(xs[i]).value in FilterMap(xs, f)
    decreases |xs|
  {
    if i < |xs| - 1 {
      var init := xs[..|xs| - 1];
      FilterMapKeeps(init, f, i);
    }
  }

  // ---------------------------------------------------------------------------
  // The three sources
  // ---------------------------------------------------------------------------

  /** An outward issue link becomes its browse URL titled by the key, if the URL passes the allow-list. */
  function OutwardLinkOf(jiraUrl: string, netloc: string -> string, link: IssueLink): Option<Link> {
    if link.outwardKey.Some? && IsValidDomain(netloc(BrowseUrl(jiraUrl, link.outwardKey.value))) then
      Some(Link(BrowseUrl(jiraUrl, link.outwardKey.value), link.outwardKey.value))
    else None
  }

  /** A web link becomes its URL titled by itself, if `host(url)` passes the allow-list. */
  function WebLinkOf(host: string -> string, link: IssueLink): Option<Link> {
    if link.objectUrl.Some? && IsValidDomain(host(link.objectUrl.value)) then
      Some(Link(link.objectUrl.value, link.objectUrl.value))
    else None
  }

  /** A remote link becomes its URL titled by itself, if the URL passes the allow-list. */
  function RemoteLinkOf(netloc: string -> string, url: Option<string>): Option<Link> {
    if url.Some? && IsValidDomain(netloc(url.value)) then Some(Link(url.value, url.value)) else None
  }

  function Outward(jiraUrl: string, netloc: string -> string): IssueLink -> Option<Link> {
    link => OutwardLinkOf(jiraUrl, netloc, link)
  }

  function Web(host: string -> string): IssueLink -> Option<Link> {
    link => WebLinkOf(host, link)
  }

  function Remote(netloc: string -> string): Option<string> -> Option<Link> {
    url => RemoteLinkOf(netloc, url)
  }

  /** `extract_remotelinks`: the allowed remote links, or none at all when the call failed. */
  function RemoteList(remote: RemoteLinks, netloc: string -> string): (r: seq<Link>)
    ensures remote.FetchFailed? ==> r == []
    ensures forall k :: 0 <= k < |r| ==> r[k].title == r[k].url && IsValidDomain(netloc(r[k].url))
  {
    match remote
    case FetchFailed => []
    case Fetched(urls) =>
      RemoteListShape(urls, netloc);
      FilterMap(urls, Remote(netloc))
  }

  lemma RemoteListShape(urls: seq<Option<string>>, netloc: string -> string)
    ensures forall k :: 0 <= k < |FilterMap(urls, Remote(netloc))| ==>
      FilterMap(urls, Remote(netloc))[k].title == FilterMap(urls, Remote(netloc))[k].url &&
      IsValidDomain(netloc(FilterMap(urls, Remote(netloc))[k].url))
  {
    var r := FilterMap(urls, Remote(netloc));
    forall k | 0 <= k < |r| ensures r[k].title == r[k].url && IsValidDomain(netloc(r[k].url)) {
      FilterMapMember(urls, Remote(netloc), k);
    }
  }

  /**
    The `External Links` of one issue: outward-issue links, then web links,
    then remote links. `webHost` is how the web-link URL is turned into the
    netloc that is checked (`jira_rn.py` unescapes it first).
  */
  function AllLinks(issueLinks: seq<IssueLink>, remote: RemoteLinks, jiraUrl: string,
                    netloc: string -> string, webHost: string -> string): seq<Link>
  {
    FilterMap(issueLinks, Outward(jiraUrl, netloc)) + FilterMap(issueLinks, Web(webHost)) + RemoteList(remote, netloc)
  }

  // ---------------------------------------------------------------------------
  // The loops of the spreadsheet scripts
  // ---------------------------------------------------------------------------

  /** `extract_web_links`. */
  method ExtractWebLinks(issueLinks: seq<IssueLink>, host: string -> string) returns (webLinks: seq<Link>)
    ensures webLinks == FilterMap(issueLinks, Web(host))
  {
    webLinks := [];
    for i := 0 to |issueLinks|
      invariant webLinks == FilterMap(issueLinks[..i], Web(host))
    {
      var link := issueLinks[i];
      if link.objectUrl.Some? {
        var url := link.objectUrl.value;
        if IsValidDomain(host(url)) {
          webLinks := webLinks + [Link(url, url)];
        }
      }
      assert issueLinks[..i + 1][..i] == issueLinks[..i];
    }
    assert issueLinks[..|issueLinks|] == issueLinks;
  }

  /**
    The link part of the per-issue loop body of `fetch_jira_issues`; `webHost`
    is the host test of `extract_web_links`.
  */
  method CollectLinks(issueLinks: seq<IssueLink>, remote: RemoteLinks, jiraUrl: string, netloc: string -> string,
                      webHost: string -> string)
    returns (allLinks: seq<Link>)
    ensures allLinks == AllLinks(issueLinks, remote, jiraUrl, netloc, webHost)
  {
    allLinks := [];
    for i := 0 to |issueLinks|
      invariant allLinks == FilterMap(issueLinks[..i], Outward(jiraUrl, netloc))
    {
      var link := issueLinks[i];
      if link.outwardKey.Some? {
        var externalLink := BrowseUrl(jiraUrl, link.outwardKey.value);
        if IsValidDomain(netloc(externalLink)) {
          allLinks := allLinks + [Link(externalLink, link.outwardKey.value)];
        }
      }
      assert issueLinks[..i + 1][..i] == issueLinks[..i];
    }
    assert issueLinks[..|issueLinks|] == issueLinks;
    var webLinks := ExtractWebLinks(issueLinks, webHost);
    allLinks := allLinks + webLinks;
    var remoteLinks := RemoteList(remote, netloc);
    allLinks := allLinks + remoteLinks;
  }

  // ---------------------------------------------------------------------------
  // Properties of the assembled list
  // ---------------------------------------------------------------------------

  /**
    In order: outward links (URL is the browse URL of the title), then web
    and remote links (titled by their URL); every URL passes the allow-list.
  */
  lemma AllLinksShape(issueLinks: seq<IssueLink>, remote: RemoteLinks, jiraUrl: string, netloc: string -> string)
    ensures var o := FilterMap(issueLinks, Outward(jiraUrl, netloc));
      var r := AllLinks(issueLinks, remote, jiraUrl, netloc, netloc);
      && |o| <= |r|
      && (forall k :: 0 <= k < |o| ==> r[k].url == BrowseUrl(jiraUrl, r[k].title))
      && (forall k :: |o| <= k < |r| ==> r[k].title == r[k].url)
      && (forall k :: 0 <= k < |r| ==> IsValidDomain(netloc(r[k].url)))
  {
    var o := FilterMap(issueLinks, Outward(jiraUrl, netloc));
    var w := FilterMap(issueLinks, Web(netloc));
    var rl := RemoteList(remote, netloc);
    forall k | 0 <= k < |o| ensures o[k].url == BrowseUrl(jiraUrl, o[k].title) && IsValidDomain(netloc(o[k].url)) {
      OutwardShape(issueLinks, jiraUrl, netloc, k);
    }
    forall k | 0 <= k < |w| ensures w[k].title == w[k].url && IsValidDomain(netloc(w[k].url)) {
      WebShape(issueLinks, netloc, k);
    }
    PartsShape(o, w, rl, jiraUrl, netloc);
  }

  /** The shape of the three parts carries over to their concatenation. */
  lemma PartsShape(o: seq<Link>, w: seq<Link>, rl: seq<Link>, jiraUrl: string, netloc: string -> string)
    requires forall k :: 0 <= k < |o| ==> o[k].url == BrowseUrl(jiraUrl, o[k].title) && IsValidDomain(netloc(o[k].url))
    requires forall k :: 0 <= k < |w| ==> w[k].title == w[k].url && IsValidDomain(netloc(w[k].url))
    requires forall k :: 0 <= k < |rl| ==> rl[k].title == rl[k].url && IsValidDomain(netloc(rl[k].url))
    ensures var r := o + w + rl;
      && (forall k :: 0 <= k < |o| ==> r[k].url == BrowseUrl(jiraUrl, r[k].title))
      && (forall k :: |o| <= k < |r| ==> r[k].title == r[k].url)
      && (forall k :: 0 <= k < |r| ==> IsValidDomain(netloc(r[k].url)))
  {
    var r := o + w + rl;
    forall k | 0 <= k < |o| ensures r[k] == o[k] {}
    forall k | |o| <= k < |o| + |w| ensures r[k] == w[k - |o|] {}
    forall k | |o| + |w| <= k < |r| ensures r[k] == rl[k - |o| - |w|] {}
  }

  /** An outward link is the browse URL of its title and passes the allow-list. */
  lemma OutwardShape(issueLinks: seq<IssueLink>, jiraUrl: string, netloc: string -> string, k: nat)
    requires k < |FilterMap(issueLinks, Outward(jiraUrl, netloc))|
    ensures var l := FilterMap(issueLinks, Outward(jiraUrl, netloc))[k];
      l.url == BrowseUrl(jiraUrl, l.title) && IsValidDomain(netloc(l.url))
  {
    FilterMapMember(issueLinks, Outward(jiraUrl, netloc), k);
  }

  /** A web link is titled by its URL, which passes the allow-list. */
  lemma WebShape(issueLinks: seq<IssueLink>, host: string -> string, k: nat)
    requires k < |FilterMap(issueLinks, Web(host))|
    ensures var l := FilterMap(issueLinks, Web(host))[k];
      l.title == l.url && IsValidDomain(host(l.url))
  {
    FilterMapMember(issueLinks, Web(host), k);
  }

  /**
    The same allowed URL given as a web link and as a remote link is listed
    twice: the lists are concatenated, not deduplicated.
  */
  lemma DuplicatesKept(issueLinks: seq<IssueLink>, urls: seq<Option<string>>, jiraUrl: string,
                       netloc: string -> string, i: nat, j: nat)
    requires i < |issueLinks| && j < |urls|
    requires issueLinks[i].objectUrl.Some? && urls[j] == issueLinks[i].objectUrl
    requires IsValidDomain(netloc(urls[j].value))
    ensures var r := AllLinks(issueLinks, Fetched(urls), jiraUrl, netloc, netloc);
      exists a, b :: 0 <= a < b < |r| && r[a] == r[b] == Link(urls[j].value, urls[j].value)
  {
    var u := urls[j].value;
    var o := FilterMap(issueLinks, Outward(jiraUrl, netloc));
    var w := FilterMap(issueLinks, Web(netloc));
    var rl := FilterMap(urls, Remote(netloc));
    assert Web(netloc)(issueLinks[i]) == Some(Link(u, u));
    FilterMapKeeps(issueLinks, Web(netloc), i);
    assert Remote(netloc)(urls[j]) == Some(Link(u, u));
    FilterMapKeeps(urls, Remote(netloc), j);
    assert AllLinks(issueLinks, Fetched(urls), jiraUrl, netloc, netloc) == o + w + rl;
    TwiceIn(o, w, rl, Link(u, u));
  }

  /** A link in the second and in the third part of a list is in the whole list twice. */
  lemma TwiceIn(o: seq<Link>, w: seq<Link>, rl: seq<Link>, l: Link)
    requires l in w && l in rl
    ensures var r := o + w + rl;
      exists a, b :: 0 <= a < b < |r| && r[a] == r[b] == l
  {
    var r := o + w + rl;
    var x :| 0 <= x < |w| && w[x] == l;
    var y :| 0 <= y < |rl| && rl[y] == l;
    assert r[|o| + x] == l && r[|o| + |w| + y] == l;
  }
}
