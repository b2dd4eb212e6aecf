/**
  The URL rule applied when a feed card is clicked (the effective, second
  definition of `window.loadStream`): a Lichess page that is not yet in an
  embeddable form is either refused (tournament pages) or rewritten to the
  `lichess.org/embed/` form; every other URL is passed through unchanged.
 */
module UrlRule {
  import opened Wrappers
  import opened Strings

  const Host: string := "lichess.org"
  const HostPath: string := "lichess.org/"
  const EmbedPath: string := "lichess.org/embed/"
  /** What the rewrite inserts after the first `lichess.org/`. */
  const EmbedSegment: string := "embed/"
  const EmbedMarker: string := "embed"
  const FrameMarker: string := "frame"
  const TournamentMarker: string := "/tournament/"

  /** The guard of the rule: a Lichess URL mentioning neither `embed` nor `frame`. */
  predicate NeedsEmbedding(url: string) {
    Contains(url, Host) && !Contains(url, EmbedMarker) && !Contains(url, FrameMarker)
  }

  /** The rule itself: refuse, rewrite the first `lichess.org/`, or pass through. */
  function Normalize(url: string): (r: Result<string>)
    ensures r.Ok? ==> |url| <= |r.value| <= |url| + |EmbedSegment|
  {
    if NeedsEmbedding(url) then
      if Contains(url, TournamentMarker) then Rejected
      else Ok(ReplaceFirst(url, HostPath, EmbedPath))
    else Ok(url)
  }

  /** A URL outside the guard is embedded exactly as given. */
  lemma PassThrough(url: string)
    requires !Contains(url, Host) || Contains(url, EmbedMarker) || Contains(url, FrameMarker)
    ensures Normalize(url) == Ok(url)
  {
  }

  /** Refusal happens exactly for Lichess tournament pages inside the guard. */
  lemma RejectsExactlyTournamentPages(url: string)
    ensures Normalize(url).Rejected? <==> NeedsEmbedding(url) && Contains(url, TournamentMarker)
  {
  }

  /**
    In the rewrite case the output splits around the first `lichess.org/`:
    everything up to and including it is kept, `embed/` follows it, and the
    rest of the URL is kept.
   */
  lemma RewriteSplit(url: string, i: nat)
    requires NeedsEmbedding(url) && !Contains(url, TournamentMarker)
    requires FirstOccurrence(url, HostPath, i)
    ensures Normalize(url) == Ok(url[..i + |HostPath|] + EmbedSegment + url[i + |HostPath|..])
  {
    ReplaceFirstSplit(url, HostPath, EmbedPath, i);
    var before, after := url[..i], url[i + |HostPath|..];
    assert url[..i + |HostPath|] == before + HostPath by {
      assert url[i..i + |HostPath|] == HostPath;
    }
    assert EmbedPath == HostPath + EmbedSegment;
    assert before + EmbedPath + after == (before + HostPath) + EmbedSegment + after;
  }

  /** A Lichess URL without any `lichess.org/` (e.g. a bare host) is left as it is. */
  lemma RewriteWithoutHostPath(url: string)
    requires NeedsEmbedding(url) && !Contains(url, TournamentMarker)
    requires !Contains(url, HostPath)
    ensures Normalize(url) == Ok(url)
  {
    ContainsIffOccurs(url, HostPath);
  }

  /** The output grows by `embed/` exactly when a rewrite found `lichess.org/`, else not at all. */
  lemma LengthChange(url: string)
    requires Normalize(url).Ok?
    ensures var out := Normalize(url).value;
      && (NeedsEmbedding(url) && Contains(url, HostPath) ==> |out| == |url| + |EmbedSegment|)
      && (!(NeedsEmbedding(url) && Contains(url, HostPath)) ==> out == url)
  {
    ContainsIffOccurs(url, HostPath);
  }

  /** After a rewrite the URL mentions `embed`, so the guard no longer holds. */
  lemma RewrittenIsEmbedded(url: string)
    requires NeedsEmbedding(url) && Contains(url, HostPath)
    ensures Contains(ReplaceFirst(url, HostPath, EmbedPath), EmbedMarker)
  {
    var i := IndexOf(url, HostPath).value;
    ReplaceFirstPlacesRep(url, HostPath, EmbedPath, i);
    var out := ReplaceFirst(url, HostPath, EmbedPath);
    assert out[i + |HostPath|..i + |HostPath| + |EmbedMarker|] == EmbedPath[|HostPath|..|HostPath| + |EmbedMarker|];
    ContainsAt(out, EmbedMarker, i + |HostPath|);
  }

  /** Normalising an accepted URL again changes nothing. */
  lemma Idempotent(url: string, out: string)
    requires Normalize(url) == Ok(out)
    ensures Normalize(out) == Ok(out)
  {
    if NeedsEmbedding(url) && Contains(url, HostPath) {
      RewrittenIsEmbedded(url);
    } else {
      LengthChange(url);
    }
  }

  // The examples below take the URL as a parameter fixed by `requires` rather
  // than writing the literal into the `ensures`: a literal argument lets the
  // verifier unfold the search functions on it, and several such facts about one
  // literal in one proof exceed the resource limit. Each fact about a literal is
  // therefore proved in its own small lemma.

  /** A Lichess game link is a Lichess URL. */
  lemma GameLinkHost(url: string)
    requires url == "https://lichess.org/abcd1234"
    ensures Contains(url, Host)
  {
    assert url[8..19] == Host;
    ContainsAt(url, Host, 8);
  }

  /** A Lichess game link lies inside the guard. */
  lemma GameLinkGuard(url: string)
    requires url == "https://lichess.org/abcd1234"
    ensures NeedsEmbedding(url)
  {
    GameLinkHost(url);
    AbsentByMissingChar(url, EmbedMarker, 'm');
    AbsentByMissingChar(url, FrameMarker, 'f');
  }

  /** A Lichess game link is not a tournament page. */
  lemma GameLinkNotTournament(url: string)
    requires url == "https://lichess.org/abcd1234"
    ensures !Contains(url, TournamentMarker)
  {
    AbsentByMissingChar(url, TournamentMarker, 'u');
  }

  /** In a Lichess game link, `lichess.org/` first occurs right after the scheme. */
  lemma GameLinkHostPath(url: string)
    requires url == "https://lichess.org/abcd1234"
    ensures FirstOccurrence(url, HostPath, 8)
  {
    assert url[8..20] == HostPath;
    FirstByMissingChar(url, HostPath, 8);
  }

  /** Example: a Lichess game link is rewritten to its embed form. */
  lemma ExampleGameLink(url: string)
    requires url == "https://lichess.org/abcd1234"
    ensures Normalize(url) == Ok("https://lichess.org/embed/abcd1234")
  {
    GameLinkGuard(url);
    GameLinkNotTournament(url);
    GameLinkHostPath(url);
    RewriteSplit(url, 8);
    GameLinkPieces(url);
  }

  /** The pieces the rewrite of the game link keeps. */
  lemma GameLinkPieces(url: string)
    requires url == "https://lichess.org/abcd1234"
    ensures url[..20] + EmbedSegment + url[20..] == "https://lichess.org/embed/abcd1234"
  {
    var pre, game := "https://lichess.org/", "abcd1234";
    assert url == pre + game;
    assert url[..20] == pre && url[20..] == game;
    assert pre + EmbedSegment + game == "https://lichess.org/embed/abcd1234";
  }

  /** A Lichess tournament page is a Lichess URL. */
  lemma TournamentHost(url: string)
    requires url == "https://lichess.org/tournament/arena123"
    ensures Contains(url, Host)
  {
    assert url == "https://" + Host + "/tournament/arena123";
    assert url[8..19] == Host;
    ContainsAt(url, Host, 8);
  }

  /** A Lichess tournament page lies inside the guard. */
  lemma TournamentGuard(url: string)
    requires url == "https://lichess.org/tournament/arena123"
    ensures NeedsEmbedding(url)
  {
    TournamentHost(url);
    AbsentByMissingChar(url, EmbedMarker, 'b');
    AbsentByMissingChar(url, FrameMarker, 'f');
  }

  /** Example: a Lichess tournament page is refused. */
  lemma ExampleTournament(url: string)
    requires url == "https://lichess.org/tournament/arena123"
    ensures Normalize(url) == Rejected
  {
    TournamentGuard(url);
    assert url[19..31] == TournamentMarker;
    ContainsAt(url, TournamentMarker, 19);
  }

  /** Example: a Lichess embed link is passed through unchanged. */
  lemma ExampleEmbedLink(url: string)
    requires url == "https://lichess.org/embed/abcd1234"
    ensures Normalize(url) == Ok(url)
  {
    assert url == "https://" + HostPath + EmbedMarker + "/abcd1234";
    assert url[20..25] == EmbedMarker;
    ContainsAt(url, EmbedMarker, 20);
  }

  /** Example: a URL on another host is passed through unchanged. */
  lemma ExampleOtherHost(url: string)
    requires url == "https://example.com/stream"
    ensures Normalize(url) == Ok(url)
  {
    AbsentByMissingChar(url, Host, 'i');
  }
}
