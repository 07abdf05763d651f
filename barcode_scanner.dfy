/**
 * The orientation and inversion search of the barcode scanner.
 *
 * The image is converted to grey and contrast-normalised once; then every
 * clockwise rotation in `Rotations` is tried, first as it is and then
 * inverted, until the decoder reports a symbol.  The decoder (zbar) is an
 * oracle: a deterministic function from images to replies, wrapped in a
 * stub that records every image it is handed, so that the order and the
 * number of decoder calls can be stated.
 */
module BarcodeScanner {

  import opened PixelSpec
  import opened ImageProcessor

  /** A symbol the decoder found: its type name and its decoded text. */
  datatype Symbol = Symbol(typeName: string, text: string)

  /** What a rejected decoder call carries: an `Error` object or any other value. */
  datatype Thrown = ErrorValue(message: string) | OtherValue

  /** The decoder's answer for one image: the symbols found, or a rejection. */
  datatype Reply = Symbols(symbols: seq<Symbol>) | Fault(thrown: Thrown)

  /** A decoded barcode and the attempt that found it (the timestamp is not modelled). */
  datatype ScanResult = ScanResult(value: string, format: string, orientation: Orientation, wasInverted: bool)

  /** How a scan ends: with a result, with `null`, or with an exception. */
  datatype Outcome = Found(result: ScanResult) | NotFound | Failed(thrown: Thrown)

  /** One decoder attempt: a rotation, on the plain or on the inverted image. */
  datatype Attempt = Attempt(orientation: Orientation, inverted: bool)

  /** A finished search: its outcome and how many times the decoder was called. */
  datatype Search = Search(outcome: Outcome, calls: nat)

  /** `ROTATIONS`: the clockwise rotations tried, in order. */
  const Rotations: seq<Orientation> := [0, 90, 180, 270]

  /**
   * The attempts in the order `scanBarcode` makes them: each rotation of
   * `Rotations`, first on the plain image, then on the inverted one.
   */
  const Attempts: seq<Attempt> :=
    [Attempt(0, false), Attempt(0, true), Attempt(90, false), Attempt(90, true),
     Attempt(180, false), Attempt(180, true), Attempt(270, false), Attempt(270, true)]

  /** Attempts `2 i` and `2 i + 1` are rotation `i` of `Rotations`, plain and inverted. */
  lemma AttemptsOfRotation(i: nat)
    requires i < |Rotations|
    ensures 2 * i + 1 < |Attempts|
    ensures Attempts[2 * i] == Attempt(Rotations[i], false) && Attempts[2 * i + 1] == Attempt(Rotations[i], true)
  {
  }

  // ---------------------------------------------------------------------
  // The decoder
  // ---------------------------------------------------------------------

  /** A stand-in for zbar's `scanImageData`, logging the images it is handed. */
  class Decoder {
    /** What the decoder answers for each image. */
    const respond: Image -> Reply
    /** The images handed to the decoder so far, oldest first. */
    var log: seq<Image>

    constructor (respond: Image -> Reply)
      ensures this.respond == respond && log == []
    {
      this.respond := respond;
      log := [];
    }

    /** One call of `scanImageData`. */
    method ScanImageData(imageData: ImageData) returns (reply: Reply)
      requires imageData.Valid()
      modifies this
      ensures reply == respond(imageData.View())
      ensures log == old(log) + [imageData.View()]
    {
      reply := respond(imageData.View());
      log := log + [imageData.View()];
    }
  }

  // ---------------------------------------------------------------------
  // What the search does, as values
  // ---------------------------------------------------------------------

  /**
   * What `tryScan` makes of one decoder reply: a rejection propagates, an
   * empty symbol list is `null`, otherwise the first symbol is the result.
   */
  function Decide(reply: Reply, attempt: Attempt): (o: Outcome)
    ensures o.NotFound? <==> reply == Symbols([])
    ensures o.Failed? <==> reply.Fault?
    ensures o.Failed? ==> o.thrown == reply.thrown
    ensures o.Found? ==>
      reply.Symbols? && |reply.symbols| > 0 &&
      o.result == ScanResult(reply.symbols[0].text, reply.symbols[0].typeName, attempt.orientation, attempt.inverted)
  {
    match reply
    case Fault(thrown) => Failed(thrown)
    case Symbols(symbols) =>
      if |symbols| == 0 then NotFound
      else Found(ScanResult(symbols[0].text, symbols[0].typeName, attempt.orientation, attempt.inverted))
  }

  /** The image both transforms of `scanBarcode` produce before the loop. */
  function Preprocessed(raw: Image): (img: Image)
    requires raw.Valid()
    ensures img.Valid() && img.width == raw.width && img.height == raw.height
  {
    Image(raw.width, raw.height, Normalized(Grayscale(raw.pixels)))
  }

  /** The image an attempt hands to the decoder: the rotated image, inverted if asked. */
  function AttemptImage(normalized: Image, attempt: Attempt): (img: Image)
    requires normalized.Valid()
    ensures img.Valid()
  {
    var rotated := Rotate(normalized, attempt.orientation);
    if attempt.inverted then Image(rotated.width, rotated.height, Inverted(rotated.pixels)) else rotated
  }

  /** The images of all eight attempts, in order. */
  function AttemptImages(normalized: Image): (images: seq<Image>)
    requires normalized.Valid()
    ensures |images| == |Attempts|
  {
    seq(|Attempts|, k requires 0 <= k < |Attempts| => AttemptImage(normalized, Attempts[k]))
  }

  /** The decoder's replies to a sequence of images. */
  function Replies(respond: Image -> Reply, images: seq<Image>): (replies: seq<Reply>)
    ensures |replies| == |images|
  {
    seq(|images|, k requires 0 <= k < |images| => respond(images[k]))
  }

  /**
   * The search from attempt `k` on, given the reply every attempt would get:
   * the attempts are made in order until one decides something other than
   * `null`.  A search that starts before the end makes at least one call and
   * never more than the attempts left; it ends in `null` only after the last.
   */
  function SearchFrom(replies: seq<Reply>, k: nat): (s: Search)
    requires |replies| == |Attempts| && k <= |Attempts|
    ensures k <= s.calls <= |Attempts| && (k < |Attempts| ==> k < s.calls)
    ensures s.outcome.NotFound? ==> s.calls == |Attempts|
    decreases |Attempts| - k
  {
    if k == |Attempts| then Search(NotFound, k)
    else
      var o := Decide(replies[k], Attempts[k]);
      if o.NotFound? then SearchFrom(replies, k + 1) else Search(o, k + 1)
  }

  // ---------------------------------------------------------------------
  // Properties of the search
  // ---------------------------------------------------------------------

  /**
   * A search from `k` that ends in `null` saw an empty symbol list on the
   * last attempt, every attempt it passed over got an empty list, and any
   * other outcome is what its last call decided.
   */
  lemma {:induction false} SearchFromExplained(replies: seq<Reply>, k: nat)
    requires |replies| == |Attempts| && k <= |Attempts|
    ensures var s := SearchFrom(replies, k);
      (s.outcome.NotFound? && k < |Attempts| ==> replies[|Attempts| - 1] == Symbols([])) &&
      (forall j :: k <= j < s.calls - 1 ==> replies[j] == Symbols([])) &&
      (!s.outcome.NotFound? ==> s.outcome == Decide(replies[s.calls - 1], Attempts[s.calls - 1]))
    decreases |Attempts| - k
  {
    if k < |Attempts| && Decide(replies[k], Attempts[k]).NotFound? {
      SearchFromExplained(replies, k + 1);
    }
  }

  /**
   * The whole search: at most eight calls; every attempt before the last
   * call got an empty list; the outcome is what the last call decided, and
   * `null` exactly when all eight attempts got an empty list.
   */
  lemma SearchExplained(replies: seq<Reply>)
    requires |replies| == |Attempts|
    ensures var s := SearchFrom(replies, 0);
      1 <= s.calls <= |Attempts| &&
      (forall j :: 0 <= j < s.calls - 1 ==> replies[j] == Symbols([])) &&
      (s.outcome.NotFound? ==> s.calls == |Attempts|) &&
      (s.outcome.NotFound? <==> forall j :: 0 <= j < |Attempts| ==> replies[j] == Symbols([])) &&
      (!s.outcome.NotFound? ==> s.outcome == Decide(replies[s.calls - 1], Attempts[s.calls - 1]))
  {
    SearchFromExplained(replies, 0);
  }

  /**
   * If attempt `k` is the first whose reply is not an empty list, the search
   * makes exactly `k + 1` calls and ends with what that reply decides.
   */
  lemma {:induction false} SearchStopsAtFirst(replies: seq<Reply>, k: nat, from: nat)
    requires |replies| == |Attempts| && from <= k < |Attempts|
    requires forall j :: from <= j < k ==> replies[j] == Symbols([])
    requires replies[k] != Symbols([])
    ensures SearchFrom(replies, from) == Search(Decide(replies[k], Attempts[k]), k + 1)
    decreases k - from
  {
    if from < k {
      SearchStopsAtFirst(replies, k, from + 1);
    }
  }

  /**
   * The first non-empty symbol list, at attempt `k`, gives a result built
   * from its first symbol and from that attempt's rotation and inversion,
   * after exactly `k + 1` decoder calls.
   */
  lemma FirstSymbolWins(replies: seq<Reply>, k: nat)
    requires |replies| == |Attempts| && k < |Attempts|
    requires forall j :: 0 <= j < k ==> replies[j] == Symbols([])
    requires replies[k].Symbols? && |replies[k].symbols| > 0
    ensures var first := replies[k].symbols[0];
      SearchFrom(replies, 0) ==
        Search(Found(ScanResult(first.text, first.typeName, Attempts[k].orientation, Attempts[k].inverted)), k + 1)
  {
    SearchStopsAtFirst(replies, k, 0);
  }

  /** A rejection at attempt `k` ends the search there, after `k + 1` calls. */
  lemma FaultPropagates(replies: seq<Reply>, k: nat)
    requires |replies| == |Attempts| && k < |Attempts|
    requires forall j :: 0 <= j < k ==> replies[j] == Symbols([])
    requires replies[k].Fault?
    ensures SearchFrom(replies, 0) == Search(Failed(replies[k].thrown), k + 1)
  {
    SearchStopsAtFirst(replies, k, 0);
  }

  /** Eight empty symbol lists give `null` after eight calls. */
  lemma AllEmptyIsNotFound(replies: seq<Reply>)
    requires |replies| == |Attempts|
    requires forall j :: 0 <= j < |Attempts| ==> replies[j] == Symbols([])
    ensures SearchFrom(replies, 0) == Search(NotFound, |Attempts|)
  {
    SearchExplained(replies);
  }

  /**
   * Every attempt sees a rotation of the one preprocessed image, and the
   * inverted attempt the inversion of the plain one of the same rotation.
   */
  lemma AttemptImagesOfRotation(normalized: Image, i: nat)
    requires normalized.Valid() && i < |Rotations|
    ensures var images := AttemptImages(normalized);
      images[2 * i] == Rotate(normalized, Rotations[i]) &&
      images[2 * i + 1] == Image(images[2 * i].width, images[2 * i].height, Inverted(images[2 * i].pixels))
  {
    AttemptsOfRotation(i);
  }

  /** Every image handed to the decoder is grey. */
  lemma AttemptImagesAreGray(raw: Image, k: nat)
    requires raw.Valid() && k < |Attempts|
    ensures IsGray(AttemptImages(Preprocessed(raw))[k].pixels)
  {
    GrayscaleIsGray(raw.pixels);
    NormalizedKeepsGray(Grayscale(raw.pixels));
    var normalized := Preprocessed(raw);
    var rotated := Rotate(normalized, Attempts[k].orientation);
    assert IsGray(rotated.pixels) by {
      forall q | 0 <= q < |rotated.pixels|
        ensures rotated.pixels[q].r == rotated.pixels[q].g == rotated.pixels[q].b
      {
        var p := SourcePixel(normalized.width, normalized.height, Attempts[k].orientation, q);
        assert rotated.pixels[q] == normalized.pixels[p];
      }
    }
  }

  // ---------------------------------------------------------------------
  // The scanner
  // ---------------------------------------------------------------------

  /** `tryScan`: one decoder call, and what `Decide` makes of its reply. */
  method TryScan(decoder: Decoder, imageData: ImageData, orientation: Orientation, wasInverted: bool)
    returns (o: Outcome)
    requires imageData.Valid()
    modifies decoder
    ensures decoder.log == old(decoder.log) + [imageData.View()]
    ensures o == Decide(decoder.respond(imageData.View()), Attempt(orientation, wasInverted))
  {
    var reply := decoder.ScanImageData(imageData);
    match reply
    case Fault(thrown) =>
      o := Failed(thrown);
    case Symbols(symbols) =>
      if |symbols| == 0 {
        o := NotFound;
      } else {
        var symbol := symbols[0];
        o := Found(ScanResult(symbol.text, symbol.typeName, orientation, wasInverted));
      }
  }

  /** One attempt of the search: it decides, or the search goes on with the next. */
  lemma SearchStep(replies: seq<Reply>, k: nat)
    requires |replies| == |Attempts| && k < |Attempts|
    ensures var o := Decide(replies[k], Attempts[k]);
      SearchFrom(replies, k) == if o.NotFound? then SearchFrom(replies, k + 1) else Search(o, k + 1)
  {
  }

  /** Logging element `a` of `s` logs the slice `s[a..a + 1]`. */
  lemma LoggedOne<T>(log: seq<T>, s: seq<T>, a: nat)
    requires a < |s|
    ensures log + [s[a]] == log + s[a..a + 1]
  {
    assert s[a..a + 1] == [s[a]];
  }

  /** Logging elements `a` and `a + 1` of `s` in turn logs the slice `s[a..a + 2]`. */
  lemma LoggedTwo<T>(log: seq<T>, s: seq<T>, a: nat)
    requires a + 1 < |s|
    ensures log + [s[a]] + [s[a + 1]] == log + s[a..a + 2]
  {
    assert s[a..a + 2] == [s[a], s[a + 1]];
  }

  /** A logged prefix of `s` followed by the next slice of `s` is a longer prefix. */
  lemma LogJoin<T>(log: seq<T>, s: seq<T>, a: nat, b: nat)
    requires a <= b <= |s|
    ensures log + s[..a] + s[a..b] == log + s[..b]
  {
    assert s[..b] == s[..a] + s[a..b];
  }

  /**
   * `scanBarcode`: grayscale and normalise once, then search the rotations.
   * The decoder is handed exactly the first `calls` attempt images and the
   * outcome is the one `SearchFrom` describes.
   */
  method ScanBarcode(decoder: Decoder, rawImageData: ImageData) returns (o: Outcome)
    requires rawImageData.Valid()
    modifies decoder
    ensures var images := AttemptImages(Preprocessed(rawImageData.View()));
      var s := SearchFrom(Replies(decoder.respond, images), 0);
      o == s.outcome && decoder.log == old(decoder.log) + images[..s.calls]
  {
    var grayscale := ToGrayscale(rawImageData);
    var normalized := NormalizeContrast(grayscale);
    o := TryRotations(decoder, normalized);
  }

  /** The loop of `scanBarcode` over `Rotations`, returning at the first decision. */
  method TryRotations(decoder: Decoder, normalized: ImageData) returns (o: Outcome)
    requires normalized.Valid()
    modifies decoder
    ensures var images := AttemptImages(normalized.View());
      var s := SearchFrom(Replies(decoder.respond, images), 0);
      o == s.outcome && decoder.log == old(decoder.log) + images[..s.calls]
  {
    ghost var images := AttemptImages(normalized.View());
    ghost var replies := Replies(decoder.respond, images);

    var i := 0;
    while i < |Rotations|
      invariant 0 <= i <= |Rotations|
      invariant decoder.log == old(decoder.log) + images[..2 * i]
      invariant SearchFrom(replies, 2 * i) == SearchFrom(replies, 0)
    {
      AttemptImagesOfRotation(normalized.View(), i);
      o := TryRotation(decoder, normalized, i, images, replies);
      if o != NotFound {
        LogJoin(old(decoder.log), images, 2 * i, SearchFrom(replies, 0).calls);
        return;
      }
      LogJoin(old(decoder.log), images, 2 * i, 2 * i + 2);
      i := i + 1;
    }
    assert images[..|Attempts|] == images;
    return NotFound;
  }

  /**
   * One pass of that loop, for `Rotations[i]`: the rotated image, then its
   * inversion.  Either both attempts find nothing and the search goes on at
   * attempt `2 * i + 2`, or this pass decides the search from attempt `2 * i`.
   */
  method TryRotation(decoder: Decoder, normalized: ImageData, i: nat, ghost images: seq<Image>, ghost replies: seq<Reply>)
    returns (o: Outcome)
    requires normalized.Valid() && i < |Rotations| && |images| == |replies| == |Attempts|
    requires images[2 * i] == Rotate(normalized.View(), Rotations[i])
    requires images[2 * i + 1] == Image(images[2 * i].width, images[2 * i].height, Inverted(images[2 * i].pixels))
    requires replies[2 * i] == decoder.respond(images[2 * i]) && replies[2 * i + 1] == decoder.respond(images[2 * i + 1])
    modifies decoder
    ensures 2 * i < SearchFrom(replies, 2 * i).calls <= |images|
    ensures var s := SearchFrom(replies, 2 * i);
      if o.NotFound? then
        s == SearchFrom(replies, 2 * i + 2) && decoder.log == old(decoder.log) + images[2 * i..2 * i + 2]
      else
        o == s.outcome && decoder.log == old(decoder.log) + images[2 * i..s.calls]
  {
    AttemptsOfRotation(i);
    var degrees := Rotations[i];
    var rotated := RotateImage(normalized, degrees);

    o := TryScan(decoder, rotated, degrees, false);
    SearchStep(replies, 2 * i);
    LoggedOne(old(decoder.log), images, 2 * i);
    if o != NotFound {
      return;
    }

    var inverted := InvertImage(rotated);
    o := TryScan(decoder, inverted, degrees, true);
    SearchStep(replies, 2 * i + 1);
    LoggedTwo(old(decoder.log), images, 2 * i);
  }
}
