/** The message handler: ignore anything that is not the search command,
    otherwise search with the message's tags and relay every result.
    The image search and the download are parameters: `search` gives the
    results for a tag list in the order the search service yields them, and
    `fetch` gives the bytes behind a URL. */
module Handler {
  import opened Strings
  import opened Command
  import opened Relay

  method OnMessage(content: string, search: seq<string> -> seq<ImageResult>, fetch: Url -> Bytes)
    returns (trace: seq<Effect>, outcome: Outcome)
    ensures !IsSearchCommand(content) ==> trace == [] && outcome == Ignored
    ensures IsSearchCommand(content) ==>
      var tags := Tags(content);
      var results := search(tags);
      var k := Processed(results);
      && trace == [Search(tags)] + RelayTrace(results[..k], fetch)
      && outcome == if k < |results| then MissingLarge(k) else Completed
  {
    if !IsSearchCommand(content) {
      return [], Ignored;
    }
    var raw := RawTags(content);
    var tags := Split(raw, TagSeparator);
    var results := search(tags);
    var relayed;
    relayed, outcome := RelayResults(results, fetch);
    trace := [Search(tags)] + relayed;
  }

  /** A message that is not the command has no effect at all. */
  method IgnoredScenario(search: seq<string> -> seq<ImageResult>, fetch: Url -> Bytes)
  {
    assert !IsSearchCommand("derpi safe") by {
      assert "derpi safe"[0] != SearchCommand[0];
    }
    var trace, outcome := OnMessage("derpi safe", search, fetch);
    assert trace == [] && outcome == Ignored;
    assert !IsSearchCommand(" !derpi safe") by {
      assert " !derpi safe"[0] != SearchCommand[0];
    }
    trace, outcome := OnMessage(" !derpi safe", search, fetch);
    assert trace == [] && outcome == Ignored;
  }

  /** `!derpi safe` with one result whose "large" URL serves a JPEG: one
      download, then one upload named `1.jpg` carrying exactly those bytes. */
  method SafeScenario()
  {
    var image := ImageResult(1, "jpg", map[LargeSize := "http://x/1.jpg"]);
    var payload: Bytes := [0xff, 0xd8];
    var search := (tags: seq<string>) => [image];
    var fetch := (url: Url) => if url == "http://x/1.jpg" then payload else [];
    assert RawTags("!derpi safe") == "safe";
    assert Join(["safe"], TagSeparator) == "safe";
    SplitJoin(["safe"], TagSeparator);
    FilenameExample();
    assert Processed([image]) == 1;
    assert [image][..1] == [image];
    var trace, outcome := OnMessage("!derpi safe", search, fetch);
    assert RelayTrace([image], fetch) == RelayTrace([], fetch) + Step(image, fetch);
    assert trace == [Search(["safe"]), Fetch("http://x/1.jpg"), Upload(Attachment("1.jpg", payload))];
    assert outcome == Completed;
  }

  /** Three results of which the second lacks a "large" URL: the first is
      relayed, the second raises, and the third is never downloaded. */
  method MissingLargeScenario(content: string, fetch: Url -> Bytes)
    requires IsSearchCommand(content)
  {
    var good := ImageResult(1, "png", map[LargeSize := "http://x/1.png"]);
    var bad := ImageResult(2, "png", map["full" := "http://x/2.png"]);
    var late := ImageResult(3, "png", map[LargeSize := "http://x/3.png"]);
    var results := [good, bad, late];
    assert Processed(results) == 1 by {
      assert HasLarge(results[0]) && !HasLarge(results[1]);
    }
    assert results[..1] == [good];
    var trace, outcome := OnMessage(content, _ => results, fetch);
    assert outcome == MissingLarge(1);
    RelayUploads([good], fetch);
    RelayFetches([good], fetch);
    assert trace[1..] == RelayTrace([good], fetch);
    assert |Uploads(trace[1..])| == 1 && |Fetches(trace[1..])| == 1;
    assert Fetches(trace[1..]) == ["http://x/1.png"];
  }
}
