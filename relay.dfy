/** The per-result relay: for every image the search yields, download its
    "large" rendition and upload the bytes to the channel under a filename
    derived from the image. Network effects are recorded in a trace instead of
    being performed; the download is a function from URL to bytes. */
module Relay {
  import opened Strings

  newtype byte = x: int | 0 <= x < 256
  type Bytes = seq<byte>
  type Url = string

  /** The representation that is downloaded; no other size is ever tried. */
  const LargeSize: string := "large"

  /** One search result: its id, its file extension and its download URL per size. */
  datatype ImageResult = ImageResult(id: int, format: string, representations: map<string, Url>)

  /** A file sent to the channel. */
  datatype Attachment = Attachment(filename: string, data: Bytes)

  /** The outside effects of handling a message, in the order they happen. */
  datatype Effect = Search(tags: seq<string>) | Fetch(url: Url) | Upload(file: Attachment)

  /** How handling a message ended: not a command, every result relayed, or a
      lookup error on the result at `index`, which lacks a "large" URL. */
  datatype Outcome = Ignored | Completed | MissingLarge(index: nat)

  /** `str(id) + "." + format`. The id's digits never contain a dot, so the
      first dot of the name is the one that ends the id. */
  function Filename(id: int, format: string): (name: string)
    ensures |name| == |IntToDecimal(id)| + 1 + |format|
    ensures IndexOf(name, '.') == |IntToDecimal(id)|
  {
    IntRoundTrip(id);
    IndexOfAfterPrefix(IntToDecimal(id), '.', format);
    IntToDecimal(id) + "." + format
  }

  /** Splits a filename at its first dot into an id and a format. */
  function ParseFilename(name: string): Option<(int, string)>
  {
    var dot := IndexOf(name, '.');
    if dot == |name| then None
    else match ParseInt(name[..dot])
      case None => None
      case Some(id) => Some((id, name[dot + 1..]))
  }

  /** The filename determines the image's id and format: the decimal id never
      contains a dot, so the first dot separates the two. */
  lemma FilenameRoundTrip(id: int, format: string)
    ensures ParseFilename(Filename(id, format)) == Some((id, format))
  {
    var digits := IntToDecimal(id);
    var name := Filename(id, format);
    IntRoundTrip(id);
    assert name[..|digits|] == digits;
    assert name[|digits| + 1..] == format;
  }

  lemma FilenameExample()
    ensures Filename(12345, "png") == "12345.png"
    ensures Filename(1, "jpg") == "1.jpg"
  {
    assert NatToDecimal(12) == "12";
    assert NatToDecimal(123) == "123";
    assert NatToDecimal(1234) == "1234";
    assert NatToDecimal(12345) == "12345";
  }

  /** The lookup `representations["large"]` succeeds. */
  predicate HasLarge(image: ImageResult)
  {
    LargeSize in image.representations
  }

  /** The URL the lookup `representations["large"]` yields. */
  function LargeUrl(image: ImageResult): Url
    requires HasLarge(image)
  {
    image.representations[LargeSize]
  }

  /** Only the "large" size matters: adding or replacing any other size
      neither makes the lookup succeed or fail nor changes the URL it yields,
      so no fallback size is ever tried. */
  lemma LargeOnly(image: ImageResult, size: string, url: Url)
    requires size != LargeSize
    ensures var other := image.(representations := image.representations[size := url]);
            && (HasLarge(other) <==> HasLarge(image))
            && (HasLarge(image) ==> LargeUrl(other) == LargeUrl(image))
  {
  }

  /** Whatever else an image offers, storing a URL under "large" makes the
      lookup succeed with exactly that URL. */
  lemma LargeStored(image: ImageResult, url: Url)
    ensures var stored := image.(representations := image.representations[LargeSize := url]);
            && HasLarge(stored)
            && LargeUrl(stored) == url
  {
  }

  /** What is uploaded for one image: its derived filename and the bytes
      downloaded from its "large" URL. */
  function AttachmentFor(image: ImageResult, fetch: Url -> Bytes): Attachment
    requires HasLarge(image)
  {
    Attachment(Filename(image.id, image.format), fetch(LargeUrl(image)))
  }

  /** How many results are relayed before the first one without a "large" URL. */
  function Processed(results: seq<ImageResult>): (k: nat)
    ensures k <= |results|
    ensures forall j :: 0 <= j < k ==> HasLarge(results[j])
    ensures k < |results| ==> !HasLarge(results[k])
  {
    if results == [] || !HasLarge(results[0]) then 0
    else 1 + Processed(results[1..])
  }

  /** The effects of relaying one image: download, then upload. */
  function Step(image: ImageResult, fetch: Url -> Bytes): seq<Effect>
    requires HasLarge(image)
  {
    [Fetch(LargeUrl(image)), Upload(AttachmentFor(image, fetch))]
  }

  /** The effects of relaying a run of images, one after the other. */
  function RelayTrace(images: seq<ImageResult>, fetch: Url -> Bytes): seq<Effect>
    requires forall j :: 0 <= j < |images| ==> HasLarge(images[j])
  {
    if images == [] then []
    else RelayTrace(images[..|images| - 1], fetch) + Step(images[|images| - 1], fetch)
  }

  /** Relaying a run of images produces exactly two effects per image. */
  lemma {:induction false} RelayTraceLength(images: seq<ImageResult>, fetch: Url -> Bytes)
    requires forall j :: 0 <= j < |images| ==> HasLarge(images[j])
    ensures |RelayTrace(images, fetch)| == 2 * |images|
    decreases |images|
  {
    if images != [] {
      RelayTraceLength(images[..|images| - 1], fetch);
    }
  }

  /** The relay strictly alternates: the i-th image is downloaded and then
      uploaded before the next image is touched. */
  lemma {:induction false} RelayTraceAt(images: seq<ImageResult>, fetch: Url -> Bytes, i: nat)
    requires forall j :: 0 <= j < |images| ==> HasLarge(images[j])
    requires i < |images|
    ensures |RelayTrace(images, fetch)| == 2 * |images|
    ensures RelayTrace(images, fetch)[2 * i] == Fetch(LargeUrl(images[i]))
    ensures RelayTrace(images, fetch)[2 * i + 1] == Upload(AttachmentFor(images[i], fetch))
    decreases |images|
  {
    var init := images[..|images| - 1];
    if i < |images| - 1 {
      RelayTraceAt(init, fetch, i);
      assert init[i] == images[i];
    } else if |images| > 1 {
      RelayTraceAt(init, fetch, 0);
    }
  }

  /** The uploads in a trace, in order. */
  function Uploads(trace: seq<Effect>): seq<Attachment>
  {
    if trace == [] then []
    else (if trace[0].Upload? then [trace[0].file] else []) + Uploads(trace[1..])
  }

  /** The URLs downloaded in a trace, in order. */
  function Fetches(trace: seq<Effect>): seq<Url>
  {
    if trace == [] then []
    else (if trace[0].Fetch? then [trace[0].url] else []) + Fetches(trace[1..])
  }

  lemma {:induction false} UploadsAppend(a: seq<Effect>, b: seq<Effect>)
    ensures Uploads(a + b) == Uploads(a) + Uploads(b)
    decreases |a|
  {
    if a == [] {
      assert a + b == b;
    } else {
      var ab := a + b;
      assert ab[0] == a[0];
      assert ab[1..] == a[1..] + b;
      UploadsAppend(a[1..], b);
    }
  }

  lemma {:induction false} FetchesAppend(a: seq<Effect>, b: seq<Effect>)
    ensures Fetches(a + b) == Fetches(a) + Fetches(b)
    decreases |a|
  {
    if a == [] {
      assert a + b == b;
    } else {
      var ab := a + b;
      assert ab[0] == a[0];
      assert ab[1..] == a[1..] + b;
      FetchesAppend(a[1..], b);
    }
  }

  /** Relaying one image downloads its "large" URL and uploads its attachment. */
  lemma StepEffects(image: ImageResult, fetch: Url -> Bytes)
    requires HasLarge(image)
    ensures Uploads(Step(image, fetch)) == [AttachmentFor(image, fetch)]
    ensures Fetches(Step(image, fetch)) == [LargeUrl(image)]
  {
    var step := Step(image, fetch);
    var tail := step[1..];
    assert tail == [Upload(AttachmentFor(image, fetch))];
    assert tail[1..] == [];
    assert Uploads(tail) == [AttachmentFor(image, fetch)] + Uploads([]);
    assert Fetches(tail) == [] + Fetches([]);
    assert Uploads(step) == [] + Uploads(tail);
    assert Fetches(step) == [LargeUrl(image)] + Fetches(tail);
  }

  /** The attachments of a run of images, one per image and in order. */
  function Attachments(images: seq<ImageResult>, fetch: Url -> Bytes): seq<Attachment>
    requires forall j :: 0 <= j < |images| ==> HasLarge(images[j])
  {
    seq(|images|, i requires 0 <= i < |images| => AttachmentFor(images[i], fetch))
  }

  lemma AttachmentsSnoc(images: seq<ImageResult>, fetch: Url -> Bytes)
    requires |images| > 0
    requires forall j :: 0 <= j < |images| ==> HasLarge(images[j])
    ensures Attachments(images, fetch) == Attachments(images[..|images| - 1], fetch) + [AttachmentFor(images[|images| - 1], fetch)]
  {
    var n := |images| - 1;
    var whole, init := Attachments(images, fetch), Attachments(images[..n], fetch);
    assert |whole| == |init + [AttachmentFor(images[n], fetch)]|;
    forall i | 0 <= i < |whole| ensures whole[i] == (init + [AttachmentFor(images[n], fetch)])[i] {
      if i < n {
        assert images[..n][i] == images[i];
      }
    }
  }

  /** Exactly one upload per relayed image, in the order of the images, each
      carrying that image's filename and downloaded bytes. */
  lemma {:induction false} RelayUploads(images: seq<ImageResult>, fetch: Url -> Bytes)
    requires forall j :: 0 <= j < |images| ==> HasLarge(images[j])
    ensures Uploads(RelayTrace(images, fetch)) == Attachments(images, fetch)
    decreases |images|
  {
    if images != [] {
      var n := |images| - 1;
      var init, last := images[..n], images[n];
      var before, step := RelayTrace(init, fetch), Step(last, fetch);
      assert RelayTrace(images, fetch) == before + step;
      RelayUploads(init, fetch);
      UploadsAppend(before, step);
      StepEffects(last, fetch);
      assert Uploads(before + step) == Attachments(init, fetch) + [AttachmentFor(last, fetch)];
      AttachmentsSnoc(images, fetch);
    }
  }

  /** The "large" URLs of a run of images, one per image and in order. */
  function LargeUrls(images: seq<ImageResult>): seq<Url>
    requires forall j :: 0 <= j < |images| ==> HasLarge(images[j])
  {
    seq(|images|, i requires 0 <= i < |images| => LargeUrl(images[i]))
  }

  lemma LargeUrlsSnoc(images: seq<ImageResult>)
    requires |images| > 0
    requires forall j :: 0 <= j < |images| ==> HasLarge(images[j])
    ensures LargeUrls(images) == LargeUrls(images[..|images| - 1]) + [LargeUrl(images[|images| - 1])]
  {
    var n := |images| - 1;
    var whole, init := LargeUrls(images), LargeUrls(images[..n]);
    assert |whole| == |init + [LargeUrl(images[n])]|;
    forall i | 0 <= i < |whole| ensures whole[i] == (init + [LargeUrl(images[n])])[i] {
      if i < n {
        assert images[..n][i] == images[i];
      }
    }
  }

  /** Exactly the images' "large" URLs are downloaded, once each and in the
      order of the images. */
  lemma {:induction false} RelayFetches(images: seq<ImageResult>, fetch: Url -> Bytes)
    requires forall j :: 0 <= j < |images| ==> HasLarge(images[j])
    ensures Fetches(RelayTrace(images, fetch)) == LargeUrls(images)
    decreases |images|
  {
    if images != [] {
      var n := |images| - 1;
      var init, last := images[..n], images[n];
      var before, step := RelayTrace(init, fetch), Step(last, fetch);
      assert RelayTrace(images, fetch) == before + step;
      RelayFetches(init, fetch);
      FetchesAppend(before, step);
      StepEffects(last, fetch);
      assert Fetches(before + step) == LargeUrls(init) + [LargeUrl(last)];
      LargeUrlsSnoc(images);
    }
  }

  /** `Processed` is the one index before which every result has a "large"
      URL and at which the results end or one lacks it. */
  lemma ProcessedAt(results: seq<ImageResult>, i: nat)
    requires i <= |results|
    requires forall j :: 0 <= j < i ==> HasLarge(results[j])
    requires i == |results| || !HasLarge(results[i])
    ensures Processed(results) == i
  {
  }

  /** Relaying one more image extends the trace by that image's step. */
  lemma RelayTraceSnoc(images: seq<ImageResult>, i: nat, fetch: Url -> Bytes)
    requires i < |images|
    requires forall j :: 0 <= j <= i ==> HasLarge(images[j])
    ensures RelayTrace(images[..i + 1], fetch) == RelayTrace(images[..i], fetch) + Step(images[i], fetch)
  {
    var run := images[..i + 1];
    assert run[..i] == images[..i];
    assert run[i] == images[i];
  }

  /** The relay loop: results are taken in the order the search yields them;
      a result without a "large" URL raises a lookup error, which ends the loop
      before that result or any later one is downloaded or uploaded. */
  method RelayResults(results: seq<ImageResult>, fetch: Url -> Bytes)
    returns (trace: seq<Effect>, outcome: Outcome)
    ensures var k := Processed(results);
            && trace == RelayTrace(results[..k], fetch)
            && outcome == (if k < |results| then MissingLarge(k) else Completed)
  {
    trace, outcome := [], Completed;
    var i := 0;
    while i < |results|
      invariant i <= |results|
      invariant forall j :: 0 <= j < i ==> HasLarge(results[j])
      invariant trace == RelayTrace(results[..i], fetch)
      invariant outcome == Completed
    {
      var image := results[i];
      if LargeSize !in image.representations {
        outcome := MissingLarge(i);
        break;
      }
      var url := image.representations[LargeSize];
      var data := fetch(url);
      trace := trace + [Fetch(url)];
      var filename := Filename(image.id, image.format);
      trace := trace + [Upload(Attachment(filename, data))];
      RelayTraceSnoc(results, i, fetch);
      i := i + 1;
    }
    ProcessedAt(results, i);
  }

  /** Whatever the results, the uploads are those of the results before the
      first one lacking a "large" URL, one each, in order and with that
      result's file. */
  lemma UploadsUpToFirstMissing(results: seq<ImageResult>, fetch: Url -> Bytes)
    ensures |Uploads(RelayTrace(results[..Processed(results)], fetch))| == Processed(results)
    ensures forall i :: 0 <= i < Processed(results) ==>
              Uploads(RelayTrace(results[..Processed(results)], fetch))[i] == AttachmentFor(results[i], fetch)
  {
    var k := Processed(results);
    RelayUploads(results[..k], fetch);
    assert forall i :: 0 <= i < k ==> results[..k][i] == results[i];
  }

  /** Whatever the results, the downloads are the "large" URLs of the results
      before the first one lacking it, one each and in order; no later result
      is downloaded. */
  lemma FetchesUpToFirstMissing(results: seq<ImageResult>, fetch: Url -> Bytes)
    ensures |Fetches(RelayTrace(results[..Processed(results)], fetch))| == Processed(results)
    ensures forall i :: 0 <= i < Processed(results) ==>
              Fetches(RelayTrace(results[..Processed(results)], fetch))[i] == LargeUrl(results[i])
  {
    var k := Processed(results);
    RelayFetches(results[..k], fetch);
    assert forall i :: 0 <= i < k ==> results[..k][i] == results[i];
  }

  /** The relay stops early exactly when some result lacks a "large" URL. */
  lemma StopsEarlyIffMissing(results: seq<ImageResult>)
    ensures Processed(results) < |results| <==> exists j :: 0 <= j < |results| && !HasLarge(results[j])
  {
    if Processed(results) < |results| {
      assert !HasLarge(results[Processed(results)]);
    }
  }
}
