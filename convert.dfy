/**
 * Conversion between schemes (iobes/convert.py): parse the tags in one
 * scheme, then write the spans in another at the input's length. Fourteen
 * conversions are direct parse-then-write pairs; six go through BIO or
 * IOBES; eight `bmewo` names are aliases of their `bmeow` counterparts.
 */
module Convert {
  import opened Wrappers
  import opened Iobes
  import opened Spans
  import opened Format
  import opened Layout
  import opened Rename
  import opened Write
  import opened Parse
  import opened RoundTrip
  import opened Generate

  type Tags = Result<seq<string>, Exception>

  /** `convert_tags`: a ValueError when the parser reports errors, otherwise the writer's output at the input's length. */
  function ConvertTags(
    tags: seq<string>,
    parse: seq<string> -> (seq<Span>, seq<Error>),
    write: (seq<Span>, Option<nat>) -> Tags
  ): (r: Tags)
    ensures |parse(tags).1| > 0 ==> r.Failure? && r.error.ValueError?
    ensures |parse(tags).1| == 0 ==> r == write(parse(tags).0, Some(|tags|))
  {
    var (spans, errors) := parse(tags);
    if |errors| > 0 then Failure(ValueError("Found errors in the tag sequence, cannot be converted."))
    else write(spans, Some(|tags|))
  }

  /** A conversion applied to the result of another; an exception passes through. */
  function Bind(r: Tags, c: seq<string> -> Tags): Tags {
    match r
    case Failure(e) => Failure(e)
    case Success(tags) => c(tags)
  }

  lemma BindSuccess(r: Tags, c: seq<string> -> Tags, tags: seq<string>)
    requires r == Success(tags)
    ensures Bind(r, c) == c(tags)
  {
  }

  /** The reference encoding of each scheme that has a writer. */
  function EncodeAs(scheme: Encoding, spans: seq<Span>, n: nat): (r: seq<string>)
    requires scheme != TOKEN
    ensures |r| == n
  {
    match scheme
    case IOB => EncodeIob(spans, n)
    case BIO => Encode(BioFormat, spans, n)
    case IOBES => Encode(IobesFormat, spans, n)
    case BILOU => Encode(BilouFormat, spans, n)
    case BMEWO => Encode(BmeowFormat, spans, n)
  }

  /** IOB and BIO cannot express a span typed `O`; the other writers' schemes can. */
  predicate Expressible(scheme: Encoding, spans: seq<Span>) {
    scheme in {IOB, BIO} ==> Typed(spans)
  }

  /** On well-formed spans every writer succeeds at an explicit length and writes the reference encoding. */
  lemma WritersEncode(spans: seq<Span>, n: nat)
    requires WellFormed(spans, n)
    ensures WriteIobTags(spans, Some(n)) == Success(EncodeAs(IOB, spans, n))
    ensures WriteBioTags(spans, Some(n)) == Success(EncodeAs(BIO, spans, n))
    ensures WriteIobesTags(spans, Some(n)) == Success(EncodeAs(IOBES, spans, n))
    ensures WriteBilouTags(spans, Some(n)) == Success(EncodeAs(BILOU, spans, n))
    ensures WriteBmeowTags(spans, Some(n)) == Success(EncodeAs(BMEWO, spans, n))
  {
    WriterEncodes(spans, n, IOB);
    WriterEncodes(spans, n, BIO);
    WriterEncodes(spans, n, IOBES);
    WriterEncodes(spans, n, BILOU);
    WriterEncodes(spans, n, BMEWO);
  }

  /** The writer of each scheme that has one. */
  function Writer(scheme: Encoding): (seq<Span>, Option<nat>) -> Tags
    requires scheme != TOKEN
  {
    match scheme
    case IOB => WriteIobTags
    case BIO => WriteBioTags
    case IOBES => WriteIobesTags
    case BILOU => WriteBilouTags
    case BMEWO => WriteBmeowTags
  }

  lemma WriterEncodes(spans: seq<Span>, n: nat, scheme: Encoding)
    requires WellFormed(spans, n) && scheme != TOKEN
    ensures Writer(scheme)(spans, Some(n)) == Success(EncodeAs(scheme, spans, n))
  {
    match scheme
    case IOB => IobWriterMatchesLayout(spans, spans, n);
    case BIO => WriterMatchesLayout(BioFormat, spans, spans, n);
    case IOBES => WriterMatchesLayout(IobesFormat, spans, spans, n);
    case BILOU => WriterMatchesLayout(BilouFormat, spans, spans, n);
    case BMEWO => WriterMatchesLayout(BmeowFormat, spans, spans, n);
  }

  /** Every parser a conversion uses reports no errors; `ParseSpans` adds that its spans are well formed. */
  lemma ParsersClean(tags: seq<string>)
    ensures ParseIob(tags) == (ParseSpans(tags, IOB), [])
    ensures ParseBio(tags) == (ParseSpans(tags, BIO), [])
    ensures ParseIobes(tags) == (ParseSpans(tags, IOBES), [])
    ensures ParseBilou(tags) == (ParseSpans(tags, BILOU), [])
    ensures ParseBmewo(tags) == (ParseSpans(tags, BMEWO), [])
  {
    ParserClean(tags, IOB);
    ParserClean(tags, BIO);
    ParserClean(tags, IOBES);
    ParserClean(tags, BILOU);
    ParserClean(tags, BMEWO);
  }

  /** The scheme's own parser, which `ParseSpansWithErrors` dispatches to. */
  function Parser(scheme: Encoding): seq<string> -> (seq<Span>, seq<Error>) {
    match scheme
    case IOB => ParseIob
    case BIO => ParseBio
    case IOBES => ParseIobes
    case BILOU => ParseBilou
    case BMEWO => ParseBmewo
    case TOKEN => ParseToken
  }

  lemma ParserClean(tags: seq<string>, scheme: Encoding)
    ensures Parser(scheme)(tags) == (ParseSpans(tags, scheme), [])
  {
    var e := ParseSpansWithErrors(tags, scheme);
  }

  /** Parsing a scheme's reference encoding gives the spans back, when the scheme can express them. */
  lemma ParseEncodeAs(scheme: Encoding, spans: seq<Span>, n: nat)
    requires scheme != TOKEN && WellFormed(spans, n)
    ensures Expressible(scheme, spans) ==> ParseSpans(EncodeAs(scheme, spans, n), scheme) == spans
  {
    if Expressible(scheme, spans) {
      ParsersClean(EncodeAs(scheme, spans, n));
      match scheme
      case IOB => IobRoundTrip(spans, n);
      case BIO => BioRoundTrip(spans, n);
      case IOBES => IobesRoundTrip(spans, n);
      case BILOU => BilouRoundTrip(spans, n);
      case BMEWO => BmeowRoundTrip(spans, n);
    }
  }

  /** What a conversion returns, read back in its target scheme, is the spans it was given. */
  lemma KeepsVia(r: Tags, scheme: Encoding, spans: seq<Span>, n: nat)
    requires scheme != TOKEN && WellFormed(spans, n) && Expressible(scheme, spans)
    requires r == Success(EncodeAs(scheme, spans, n))
    ensures ParseSpans(r.value, scheme) == spans
  {
    ParseEncodeAs(scheme, spans, n);
  }

  /** A conversion that writes the spans it parses turns one reference encoding into the other. */
  lemma Converts(r: Tags, src: seq<string>, a: Encoding, b: Encoding, spans: seq<Span>, n: nat)
    requires a != TOKEN && b != TOKEN && WellFormed(spans, n) && Expressible(a, spans)
    requires src == EncodeAs(a, spans, n)
    requires r == Success(EncodeAs(b, ParseSpans(src, a), |src|))
    ensures r == Success(EncodeAs(b, spans, n))
  {
    ParseEncodeAs(a, spans, n);
  }

  /** The same for a conversion through BIO, which keeps the spans when none is typed `O`. */
  lemma ConvertsTyped(r: Tags, src: seq<string>, a: Encoding, b: Encoding, spans: seq<Span>, n: nat)
    requires a != TOKEN && b != TOKEN && WellFormed(spans, n) && Typed(spans)
    requires src == EncodeAs(a, spans, n)
    requires Typed(ParseSpans(src, a)) ==> r == Success(EncodeAs(b, ParseSpans(src, a), |src|))
    ensures r == Success(EncodeAs(b, spans, n))
  {
    ParseEncodeAs(a, spans, n);
  }

  // ------------------------------------------------------------- direct conversions

  function IobToBio(tags: seq<string>): (r: Tags)
    ensures r == Success(EncodeAs(BIO, ParseSpans(tags, IOB), |tags|))
  {
    ParsersClean(tags);
    WritersEncode(ParseSpans(tags, IOB), |tags|);
    ConvertTags(tags, ParseIob, WriteBioTags)
  }

  function BioToIob(tags: seq<string>): (r: Tags)
    ensures r == Success(EncodeAs(IOB, ParseSpans(tags, BIO), |tags|))
  {
    ParsersClean(tags);
    WritersEncode(ParseSpans(tags, BIO), |tags|);
    ConvertTags(tags, ParseBio, WriteIobTags)
  }

  function BioToIobes(tags: seq<string>): (r: Tags)
    ensures r == Success(EncodeAs(IOBES, ParseSpans(tags, BIO), |tags|))
  {
    ParsersClean(tags);
    WritersEncode(ParseSpans(tags, BIO), |tags|);
    ConvertTags(tags, ParseBio, WriteIobesTags)
  }

  function IobesToBio(tags: seq<string>): (r: Tags)
    ensures r == Success(EncodeAs(BIO, ParseSpans(tags, IOBES), |tags|))
  {
    ParsersClean(tags);
    WritersEncode(ParseSpans(tags, IOBES), |tags|);
    ConvertTags(tags, ParseIobes, WriteBioTags)
  }

  function IobesToBilou(tags: seq<string>): (r: Tags)
    ensures r == Success(EncodeAs(BILOU, ParseSpans(tags, IOBES), |tags|))
  {
    ParsersClean(tags);
    WritersEncode(ParseSpans(tags, IOBES), |tags|);
    ConvertTags(tags, ParseIobes, WriteBilouTags)
  }

  function IobesToBmeow(tags: seq<string>): (r: Tags)
    ensures r == Success(EncodeAs(BMEWO, ParseSpans(tags, IOBES), |tags|))
  {
    ParsersClean(tags);
    WritersEncode(ParseSpans(tags, IOBES), |tags|);
    ConvertTags(tags, ParseIobes, WriteBmeowTags)
  }

  function BilouToIob(tags: seq<string>): (r: Tags)
    ensures r == Success(EncodeAs(IOB, ParseSpans(tags, BILOU), |tags|))
  {
    ParsersClean(tags);
    WritersEncode(ParseSpans(tags, BILOU), |tags|);
    ConvertTags(tags, ParseBilou, WriteIobTags)
  }

  function BilouToBio(tags: seq<string>): (r: Tags)
    ensures r == Success(EncodeAs(BIO, ParseSpans(tags, BILOU), |tags|))
  {
    ParsersClean(tags);
    WritersEncode(ParseSpans(tags, BILOU), |tags|);
    ConvertTags(tags, ParseBilou, WriteBioTags)
  }

  function BilouToIobes(tags: seq<string>): (r: Tags)
    ensures r == Success(EncodeAs(IOBES, ParseSpans(tags, BILOU), |tags|))
  {
    ParsersClean(tags);
    WritersEncode(ParseSpans(tags, BILOU), |tags|);
    ConvertTags(tags, ParseBilou, WriteIobesTags)
  }

  function BilouToBmeow(tags: seq<string>): (r: Tags)
    ensures r == Success(EncodeAs(BMEWO, ParseSpans(tags, BILOU), |tags|))
  {
    ParsersClean(tags);
    WritersEncode(ParseSpans(tags, BILOU), |tags|);
    ConvertTags(tags, ParseBilou, WriteBmeowTags)
  }

  function BmeowToIob(tags: seq<string>): (r: Tags)
    ensures r == Success(EncodeAs(IOB, ParseSpans(tags, BMEWO), |tags|))
  {
    ParsersClean(tags);
    WritersEncode(ParseSpans(tags, BMEWO), |tags|);
    ConvertTags(tags, ParseBmewo, WriteIobTags)
  }

  function BmeowToBio(tags: seq<string>): (r: Tags)
    ensures r == Success(EncodeAs(BIO, ParseSpans(tags, BMEWO), |tags|))
  {
    ParsersClean(tags);
    WritersEncode(ParseSpans(tags, BMEWO), |tags|);
    ConvertTags(tags, ParseBmewo, WriteBioTags)
  }

  function BmeowToIobes(tags: seq<string>): (r: Tags)
    ensures r == Success(EncodeAs(IOBES, ParseSpans(tags, BMEWO), |tags|))
  {
    ParsersClean(tags);
    WritersEncode(ParseSpans(tags, BMEWO), |tags|);
    ConvertTags(tags, ParseBmewo, WriteIobesTags)
  }

  function BmeowToBilou(tags: seq<string>): (r: Tags)
    ensures r == Success(EncodeAs(BILOU, ParseSpans(tags, BMEWO), |tags|))
  {
    ParsersClean(tags);
    WritersEncode(ParseSpans(tags, BMEWO), |tags|);
    ConvertTags(tags, ParseBmewo, WriteBilouTags)
  }

  // ------------------------------------------------------------- conversions through BIO or IOBES

  /** `iob_to_iobes` goes through BIO, which keeps the spans when none is typed `O`. */
  function IobToIobes(tags: seq<string>): (r: Tags)
    ensures r.Success? && |r.value| == |tags|
    ensures Typed(ParseSpans(tags, IOB)) ==> r == Success(EncodeAs(IOBES, ParseSpans(tags, IOB), |tags|))
  {
    ParsersClean(tags);
    ParseEncodeAs(BIO, ParseSpans(tags, IOB), |tags|);
    Bind(IobToBio(tags), BioToIobes)
  }

  function IobToBilou(tags: seq<string>): (r: Tags)
    ensures r.Success? && |r.value| == |tags|
    ensures Typed(ParseSpans(tags, IOB)) ==> r == Success(EncodeAs(BILOU, ParseSpans(tags, IOB), |tags|))
  {
    ParsersClean(tags);
    ParseEncodeAs(IOBES, ParseSpans(tags, IOB), |tags|);
    Bind(IobToIobes(tags), IobesToBilou)
  }

  function IobToBmeow(tags: seq<string>): (r: Tags)
    ensures r.Success? && |r.value| == |tags|
    ensures Typed(ParseSpans(tags, IOB)) ==> r == Success(EncodeAs(BMEWO, ParseSpans(tags, IOB), |tags|))
  {
    ParsersClean(tags);
    ParseEncodeAs(IOBES, ParseSpans(tags, IOB), |tags|);
    Bind(IobToIobes(tags), IobesToBmeow)
  }

  /** Through IOBES, which can express every span, so no condition is needed. */
  function BioToBilou(tags: seq<string>): (r: Tags)
    ensures r == Success(EncodeAs(BILOU, ParseSpans(tags, BIO), |tags|))
  {
    ParsersClean(tags);
    ParseEncodeAs(IOBES, ParseSpans(tags, BIO), |tags|);
    Bind(BioToIobes(tags), IobesToBilou)
  }

  function BioToBmeow(tags: seq<string>): (r: Tags)
    ensures r == Success(EncodeAs(BMEWO, ParseSpans(tags, BIO), |tags|))
  {
    ParsersClean(tags);
    ParseEncodeAs(IOBES, ParseSpans(tags, BIO), |tags|);
    Bind(BioToIobes(tags), IobesToBmeow)
  }

  function IobesToIob(tags: seq<string>): (r: Tags)
    ensures r.Success? && |r.value| == |tags|
    ensures Typed(ParseSpans(tags, IOBES)) ==> r == Success(EncodeAs(IOB, ParseSpans(tags, IOBES), |tags|))
  {
    ParsersClean(tags);
    ParseEncodeAs(BIO, ParseSpans(tags, IOBES), |tags|);
    Bind(IobesToBio(tags), BioToIob)
  }

  // ------------------------------------------------------------- bmewo aliases

  function IobToBmewo(tags: seq<string>): (r: Tags)
    ensures r == IobToBmeow(tags)
  {
    IobToBmeow(tags)
  }

  function BioToBmewo(tags: seq<string>): (r: Tags)
    ensures r == BioToBmeow(tags)
  {
    BioToBmeow(tags)
  }

  function IobesToBmewo(tags: seq<string>): (r: Tags)
    ensures r == IobesToBmeow(tags)
  {
    IobesToBmeow(tags)
  }

  function BilouToBmewo(tags: seq<string>): (r: Tags)
    ensures r == BilouToBmeow(tags)
  {
    BilouToBmeow(tags)
  }

  function BmewoToIob(tags: seq<string>): (r: Tags)
    ensures r == BmeowToIob(tags)
  {
    BmeowToIob(tags)
  }

  function BmewoToBio(tags: seq<string>): (r: Tags)
    ensures r == BmeowToBio(tags)
  {
    BmeowToBio(tags)
  }

  function BmewoToIobes(tags: seq<string>): (r: Tags)
    ensures r == BmeowToIobes(tags)
  {
    BmeowToIobes(tags)
  }

  function BmewoToBilou(tags: seq<string>): (r: Tags)
    ensures r == BmeowToBilou(tags)
  {
    BmeowToBilou(tags)
  }

  // ------------------------------------------------------------- what a conversion keeps

  /**
   * Converting never changes the spans: reading the output in the target
   * scheme gives the spans read from the input, whenever the target and any
   * scheme passed through can express them.
   */
  lemma IobConversionKeepsSpans(tags: seq<string>)
    ensures Typed(ParseSpans(tags, IOB)) ==> ParseSpans(IobToBio(tags).value, BIO) == ParseSpans(tags, IOB)
    ensures Typed(ParseSpans(tags, IOB)) ==> ParseSpans(IobToIobes(tags).value, IOBES) == ParseSpans(tags, IOB)
    ensures Typed(ParseSpans(tags, IOB)) ==> ParseSpans(IobToBilou(tags).value, BILOU) == ParseSpans(tags, IOB)
    ensures Typed(ParseSpans(tags, IOB)) ==> ParseSpans(IobToBmeow(tags).value, BMEWO) == ParseSpans(tags, IOB)
  {
    var spans, n := ParseSpans(tags, IOB), |tags|;
    ParsersClean(tags);
    if Typed(spans) {
      KeepsVia(IobToBio(tags), BIO, spans, n);
      KeepsVia(IobToIobes(tags), IOBES, spans, n);
      KeepsVia(IobToBilou(tags), BILOU, spans, n);
      KeepsVia(IobToBmeow(tags), BMEWO, spans, n);
    }
  }

  lemma BioConversionKeepsSpans(tags: seq<string>)
    ensures Typed(ParseSpans(tags, BIO)) ==> ParseSpans(BioToIob(tags).value, IOB) == ParseSpans(tags, BIO)
    ensures ParseSpans(BioToIobes(tags).value, IOBES) == ParseSpans(tags, BIO)
    ensures ParseSpans(BioToBilou(tags).value, BILOU) == ParseSpans(tags, BIO)
    ensures ParseSpans(BioToBmeow(tags).value, BMEWO) == ParseSpans(tags, BIO)
  {
    var spans, n := ParseSpans(tags, BIO), |tags|;
    ParsersClean(tags);
    if Typed(spans) {
      KeepsVia(BioToIob(tags), IOB, spans, n);
    }
    KeepsVia(BioToIobes(tags), IOBES, spans, n);
    KeepsVia(BioToBilou(tags), BILOU, spans, n);
    KeepsVia(BioToBmeow(tags), BMEWO, spans, n);
  }

  lemma IobesConversionKeepsSpans(tags: seq<string>)
    ensures Typed(ParseSpans(tags, IOBES)) ==> ParseSpans(IobesToIob(tags).value, IOB) == ParseSpans(tags, IOBES)
    ensures Typed(ParseSpans(tags, IOBES)) ==> ParseSpans(IobesToBio(tags).value, BIO) == ParseSpans(tags, IOBES)
    ensures ParseSpans(IobesToBilou(tags).value, BILOU) == ParseSpans(tags, IOBES)
    ensures ParseSpans(IobesToBmeow(tags).value, BMEWO) == ParseSpans(tags, IOBES)
  {
    var spans, n := ParseSpans(tags, IOBES), |tags|;
    ParsersClean(tags);
    if Typed(spans) {
      KeepsVia(IobesToIob(tags), IOB, spans, n);
      KeepsVia(IobesToBio(tags), BIO, spans, n);
    }
    KeepsVia(IobesToBilou(tags), BILOU, spans, n);
    KeepsVia(IobesToBmeow(tags), BMEWO, spans, n);
  }

  lemma BilouConversionKeepsSpans(tags: seq<string>)
    ensures Typed(ParseSpans(tags, BILOU)) ==> ParseSpans(BilouToIob(tags).value, IOB) == ParseSpans(tags, BILOU)
    ensures Typed(ParseSpans(tags, BILOU)) ==> ParseSpans(BilouToBio(tags).value, BIO) == ParseSpans(tags, BILOU)
    ensures ParseSpans(BilouToIobes(tags).value, IOBES) == ParseSpans(tags, BILOU)
    ensures ParseSpans(BilouToBmeow(tags).value, BMEWO) == ParseSpans(tags, BILOU)
  {
    var spans, n := ParseSpans(tags, BILOU), |tags|;
    ParsersClean(tags);
    if Typed(spans) {
      KeepsVia(BilouToIob(tags), IOB, spans, n);
      KeepsVia(BilouToBio(tags), BIO, spans, n);
    }
    KeepsVia(BilouToIobes(tags), IOBES, spans, n);
    KeepsVia(BilouToBmeow(tags), BMEWO, spans, n);
  }

  lemma BmeowConversionKeepsSpans(tags: seq<string>)
    ensures Typed(ParseSpans(tags, BMEWO)) ==> ParseSpans(BmeowToIob(tags).value, IOB) == ParseSpans(tags, BMEWO)
    ensures Typed(ParseSpans(tags, BMEWO)) ==> ParseSpans(BmeowToBio(tags).value, BIO) == ParseSpans(tags, BMEWO)
    ensures ParseSpans(BmeowToIobes(tags).value, IOBES) == ParseSpans(tags, BMEWO)
    ensures ParseSpans(BmeowToBilou(tags).value, BILOU) == ParseSpans(tags, BMEWO)
  {
    var spans, n := ParseSpans(tags, BMEWO), |tags|;
    ParsersClean(tags);
    if Typed(spans) {
      KeepsVia(BmeowToIob(tags), IOB, spans, n);
      KeepsVia(BmeowToBio(tags), BIO, spans, n);
    }
    KeepsVia(BmeowToIobes(tags), IOBES, spans, n);
    KeepsVia(BmeowToBilou(tags), BILOU, spans, n);
  }

  // ------------------------------------------------------------- the ten scheme pairs

  /**
   * On a well-formed span list with no span typed `O`, the first conversion
   * of a pair turns the first scheme's encoding into the second's, the second
   * conversion turns it back, and each composition is the identity.
   */
  lemma PairIobBio(spans: seq<Span>, n: nat)
    requires WellFormed(spans, n) && Typed(spans)
    ensures IobToBio(EncodeIob(spans, n)) == Success(Encode(BioFormat, spans, n))
    ensures BioToIob(Encode(BioFormat, spans, n)) == Success(EncodeIob(spans, n))
    ensures Bind(IobToBio(EncodeIob(spans, n)), BioToIob) == Success(EncodeIob(spans, n))
    ensures Bind(BioToIob(Encode(BioFormat, spans, n)), IobToBio) == Success(Encode(BioFormat, spans, n))
  {
    Converts(IobToBio(EncodeIob(spans, n)), EncodeIob(spans, n), IOB, BIO, spans, n);
    Converts(BioToIob(Encode(BioFormat, spans, n)), Encode(BioFormat, spans, n), BIO, IOB, spans, n);
    BindSuccess(IobToBio(EncodeIob(spans, n)), BioToIob, Encode(BioFormat, spans, n));
    BindSuccess(BioToIob(Encode(BioFormat, spans, n)), IobToBio, EncodeIob(spans, n));
  }

  lemma PairIobIobes(spans: seq<Span>, n: nat)
    requires WellFormed(spans, n) && Typed(spans)
    ensures IobToIobes(EncodeIob(spans, n)) == Success(Encode(IobesFormat, spans, n))
    ensures IobesToIob(Encode(IobesFormat, spans, n)) == Success(EncodeIob(spans, n))
    ensures Bind(IobToIobes(EncodeIob(spans, n)), IobesToIob) == Success(EncodeIob(spans, n))
    ensures Bind(IobesToIob(Encode(IobesFormat, spans, n)), IobToIobes) == Success(Encode(IobesFormat, spans, n))
  {
    ConvertsTyped(IobToIobes(EncodeIob(spans, n)), EncodeIob(spans, n), IOB, IOBES, spans, n);
    ConvertsTyped(IobesToIob(Encode(IobesFormat, spans, n)), Encode(IobesFormat, spans, n), IOBES, IOB, spans, n);
    BindSuccess(IobToIobes(EncodeIob(spans, n)), IobesToIob, Encode(IobesFormat, spans, n));
    BindSuccess(IobesToIob(Encode(IobesFormat, spans, n)), IobToIobes, EncodeIob(spans, n));
  }

  lemma PairIobBilou(spans: seq<Span>, n: nat)
    requires WellFormed(spans, n) && Typed(spans)
    ensures IobToBilou(EncodeIob(spans, n)) == Success(Encode(BilouFormat, spans, n))
    ensures BilouToIob(Encode(BilouFormat, spans, n)) == Success(EncodeIob(spans, n))
    ensures Bind(IobToBilou(EncodeIob(spans, n)), BilouToIob) == Success(EncodeIob(spans, n))
    ensures Bind(BilouToIob(Encode(BilouFormat, spans, n)), IobToBilou) == Success(Encode(BilouFormat, spans, n))
  {
    ConvertsTyped(IobToBilou(EncodeIob(spans, n)), EncodeIob(spans, n), IOB, BILOU, spans, n);
    Converts(BilouToIob(Encode(BilouFormat, spans, n)), Encode(BilouFormat, spans, n), BILOU, IOB, spans, n);
    BindSuccess(IobToBilou(EncodeIob(spans, n)), BilouToIob, Encode(BilouFormat, spans, n));
    BindSuccess(BilouToIob(Encode(BilouFormat, spans, n)), IobToBilou, EncodeIob(spans, n));
  }

  lemma PairIobBmeow(spans: seq<Span>, n: nat)
    requires WellFormed(spans, n) && Typed(spans)
    ensures IobToBmeow(EncodeIob(spans, n)) == Success(Encode(BmeowFormat, spans, n))
    ensures BmeowToIob(Encode(BmeowFormat, spans, n)) == Success(EncodeIob(spans, n))
    ensures Bind(IobToBmeow(EncodeIob(spans, n)), BmeowToIob) == Success(EncodeIob(spans, n))
    ensures Bind(BmeowToIob(Encode(BmeowFormat, spans, n)), IobToBmeow) == Success(Encode(BmeowFormat, spans, n))
  {
    ConvertsTyped(IobToBmeow(EncodeIob(spans, n)), EncodeIob(spans, n), IOB, BMEWO, spans, n);
    Converts(BmeowToIob(Encode(BmeowFormat, spans, n)), Encode(BmeowFormat, spans, n), BMEWO, IOB, spans, n);
    BindSuccess(IobToBmeow(EncodeIob(spans, n)), BmeowToIob, Encode(BmeowFormat, spans, n));
    BindSuccess(BmeowToIob(Encode(BmeowFormat, spans, n)), IobToBmeow, EncodeIob(spans, n));
  }

  lemma PairBioIobes(spans: seq<Span>, n: nat)
    requires WellFormed(spans, n) && Typed(spans)
    ensures BioToIobes(Encode(BioFormat, spans, n)) == Success(Encode(IobesFormat, spans, n))
    ensures IobesToBio(Encode(IobesFormat, spans, n)) == Success(Encode(BioFormat, spans, n))
    ensures Bind(BioToIobes(Encode(BioFormat, spans, n)), IobesToBio) == Success(Encode(BioFormat, spans, n))
    ensures Bind(IobesToBio(Encode(IobesFormat, spans, n)), BioToIobes) == Success(Encode(IobesFormat, spans, n))
  {
    Converts(BioToIobes(Encode(BioFormat, spans, n)), Encode(BioFormat, spans, n), BIO, IOBES, spans, n);
    Converts(IobesToBio(Encode(IobesFormat, spans, n)), Encode(IobesFormat, spans, n), IOBES, BIO, spans, n);
    BindSuccess(BioToIobes(Encode(BioFormat, spans, n)), IobesToBio, Encode(IobesFormat, spans, n));
    BindSuccess(IobesToBio(Encode(IobesFormat, spans, n)), BioToIobes, Encode(BioFormat, spans, n));
  }

  lemma PairBioBilou(spans: seq<Span>, n: nat)
    requires WellFormed(spans, n) && Typed(spans)
    ensures BioToBilou(Encode(BioFormat, spans, n)) == Success(Encode(BilouFormat, spans, n))
    ensures BilouToBio(Encode(BilouFormat, spans, n)) == Success(Encode(BioFormat, spans, n))
    ensures Bind(BioToBilou(Encode(BioFormat, spans, n)), BilouToBio) == Success(Encode(BioFormat, spans, n))
    ensures Bind(BilouToBio(Encode(BilouFormat, spans, n)), BioToBilou) == Success(Encode(BilouFormat, spans, n))
  {
    var bio, bilou := Encode(BioFormat, spans, n), Encode(BilouFormat, spans, n);
    assert BioToBilou(bio) == Success(bilou) by {
      Converts(BioToBilou(bio), bio, BIO, BILOU, spans, n);
    }
    assert BilouToBio(bilou) == Success(bio) by {
      Converts(BilouToBio(bilou), bilou, BILOU, BIO, spans, n);
    }
    BindSuccess(BioToBilou(bio), BilouToBio, bilou);
    BindSuccess(BilouToBio(bilou), BioToBilou, bio);
  }

  lemma PairBioBmeow(spans: seq<Span>, n: nat)
    requires WellFormed(spans, n) && Typed(spans)
    ensures BioToBmeow(Encode(BioFormat, spans, n)) == Success(Encode(BmeowFormat, spans, n))
    ensures BmeowToBio(Encode(BmeowFormat, spans, n)) == Success(Encode(BioFormat, spans, n))
    ensures Bind(BioToBmeow(Encode(BioFormat, spans, n)), BmeowToBio) == Success(Encode(BioFormat, spans, n))
    ensures Bind(BmeowToBio(Encode(BmeowFormat, spans, n)), BioToBmeow) == Success(Encode(BmeowFormat, spans, n))
  {
    Converts(BioToBmeow(Encode(BioFormat, spans, n)), Encode(BioFormat, spans, n), BIO, BMEWO, spans, n);
    Converts(BmeowToBio(Encode(BmeowFormat, spans, n)), Encode(BmeowFormat, spans, n), BMEWO, BIO, spans, n);
    BindSuccess(BioToBmeow(Encode(BioFormat, spans, n)), BmeowToBio, Encode(BmeowFormat, spans, n));
    BindSuccess(BmeowToBio(Encode(BmeowFormat, spans, n)), BioToBmeow, Encode(BioFormat, spans, n));
  }

  /** The pairs among IOBES, BILOU and BMEWO need no condition on the types. */
  lemma PairIobesBilou(spans: seq<Span>, n: nat)
    requires WellFormed(spans, n)
    ensures IobesToBilou(Encode(IobesFormat, spans, n)) == Success(Encode(BilouFormat, spans, n))
    ensures BilouToIobes(Encode(BilouFormat, spans, n)) == Success(Encode(IobesFormat, spans, n))
    ensures Bind(IobesToBilou(Encode(IobesFormat, spans, n)), BilouToIobes) == Success(Encode(IobesFormat, spans, n))
    ensures Bind(BilouToIobes(Encode(BilouFormat, spans, n)), IobesToBilou) == Success(Encode(BilouFormat, spans, n))
  {
    Converts(IobesToBilou(Encode(IobesFormat, spans, n)), Encode(IobesFormat, spans, n), IOBES, BILOU, spans, n);
    Converts(BilouToIobes(Encode(BilouFormat, spans, n)), Encode(BilouFormat, spans, n), BILOU, IOBES, spans, n);
    BindSuccess(IobesToBilou(Encode(IobesFormat, spans, n)), BilouToIobes, Encode(BilouFormat, spans, n));
    BindSuccess(BilouToIobes(Encode(BilouFormat, spans, n)), IobesToBilou, Encode(IobesFormat, spans, n));
  }

  lemma PairIobesBmeow(spans: seq<Span>, n: nat)
    requires WellFormed(spans, n)
    ensures IobesToBmeow(Encode(IobesFormat, spans, n)) == Success(Encode(BmeowFormat, spans, n))
    ensures BmeowToIobes(Encode(BmeowFormat, spans, n)) == Success(Encode(IobesFormat, spans, n))
    ensures Bind(IobesToBmeow(Encode(IobesFormat, spans, n)), BmeowToIobes) == Success(Encode(IobesFormat, spans, n))
    ensures Bind(BmeowToIobes(Encode(BmeowFormat, spans, n)), IobesToBmeow) == Success(Encode(BmeowFormat, spans, n))
  {
    Converts(IobesToBmeow(Encode(IobesFormat, spans, n)), Encode(IobesFormat, spans, n), IOBES, BMEWO, spans, n);
    Converts(BmeowToIobes(Encode(BmeowFormat, spans, n)), Encode(BmeowFormat, spans, n), BMEWO, IOBES, spans, n);
    BindSuccess(IobesToBmeow(Encode(IobesFormat, spans, n)), BmeowToIobes, Encode(BmeowFormat, spans, n));
    BindSuccess(BmeowToIobes(Encode(BmeowFormat, spans, n)), IobesToBmeow, Encode(IobesFormat, spans, n));
  }

  lemma PairBilouBmeow(spans: seq<Span>, n: nat)
    requires WellFormed(spans, n)
    ensures BilouToBmeow(Encode(BilouFormat, spans, n)) == Success(Encode(BmeowFormat, spans, n))
    ensures BmeowToBilou(Encode(BmeowFormat, spans, n)) == Success(Encode(BilouFormat, spans, n))
    ensures Bind(BilouToBmeow(Encode(BilouFormat, spans, n)), BmeowToBilou) == Success(Encode(BilouFormat, spans, n))
    ensures Bind(BmeowToBilou(Encode(BmeowFormat, spans, n)), BilouToBmeow) == Success(Encode(BmeowFormat, spans, n))
  {
    Converts(BilouToBmeow(Encode(BilouFormat, spans, n)), Encode(BilouFormat, spans, n), BILOU, BMEWO, spans, n);
    Converts(BmeowToBilou(Encode(BmeowFormat, spans, n)), Encode(BmeowFormat, spans, n), BMEWO, BILOU, spans, n);
    BindSuccess(BilouToBmeow(Encode(BilouFormat, spans, n)), BmeowToBilou, Encode(BmeowFormat, spans, n));
    BindSuccess(BmeowToBilou(Encode(BmeowFormat, spans, n)), BilouToBmeow, Encode(BilouFormat, spans, n));
  }

  /** The test encoders are the reference encodings, so the pairs hold for their outputs too. */
  lemma PairsOnGenerated(spans: seq<Span>, n: nat)
    requires WellFormed(spans, n) && Typed(spans)
    ensures Indexable(spans, n)
    ensures IobToBio(GeneratedIob(spans, n)) == Success(GeneratedBio(spans, n))
    ensures IobToIobes(GeneratedIob(spans, n)) == Success(Generated(IobesFormat, spans, n))
    ensures IobToBilou(GeneratedIob(spans, n)) == Success(Generated(BilouFormat, spans, n))
    ensures IobToBmeow(GeneratedIob(spans, n)) == Success(Generated(BmeowFormat, spans, n))
    ensures BioToIobes(GeneratedBio(spans, n)) == Success(Generated(IobesFormat, spans, n))
    ensures BioToBilou(GeneratedBio(spans, n)) == Success(Generated(BilouFormat, spans, n))
    ensures BioToBmeow(GeneratedBio(spans, n)) == Success(Generated(BmeowFormat, spans, n))
    ensures IobesToBilou(Generated(IobesFormat, spans, n)) == Success(Generated(BilouFormat, spans, n))
    ensures IobesToBmeow(Generated(IobesFormat, spans, n)) == Success(Generated(BmeowFormat, spans, n))
    ensures BilouToBmeow(Generated(BilouFormat, spans, n)) == Success(Generated(BmeowFormat, spans, n))
  {
    GeneratedIobIsEncode(spans, n);
    GeneratedBioIsEncode(spans, n);
    GeneratedIsEncode(IobesFormat, spans, n);
    GeneratedIsEncode(BilouFormat, spans, n);
    GeneratedIsEncode(BmeowFormat, spans, n);
    PairIobBio(spans, n);
    PairIobIobes(spans, n);
    PairIobBilou(spans, n);
    PairIobBmeow(spans, n);
    PairBioIobes(spans, n);
    PairBioBilou(spans, n);
    PairBioBmeow(spans, n);
    PairIobesBilou(spans, n);
    PairIobesBmeow(spans, n);
    PairBilouBmeow(spans, n);
  }

  // ------------------------------------------------- BILOU parse as written

  /**
   * `parse_spans_bilou_with_errors` as written (iobes/parse.py:183-186): it
   * parses `bilou_to_iobes(tags)`, and `bilou_to_iobes` (iobes/convert.py:309-321)
   * is `convert_tags` over `parse_spans_bilou_with_errors` again, so each call
   * re-enters the other before looking at a tag. `fuel` bounds the depth of
   * that nesting; `None` means the depth ran out without an answer.
   */
  function ParseBilouAsWritten(tags: seq<string>, fuel: nat): Option<(seq<Span>, seq<Error>)>
    decreases fuel, 0
  {
    if fuel == 0 then None
    else
      match BilouToIobesAsWritten(tags, fuel - 1)
      case None => None
      case Some(Failure(_)) => None
      case Some(Success(iobes)) => Some(ParseIobes(iobes))
  }

  /** `bilou_to_iobes` as written: `convert_tags` over the BILOU parse as written. */
  function BilouToIobesAsWritten(tags: seq<string>, fuel: nat): Option<Tags>
    decreases fuel, 1
  {
    match ParseBilouAsWritten(tags, fuel)
    case None => None
    case Some(parsed) =>
      Some(if |parsed.1| > 0 then Failure(ValueError("Found errors in the tag sequence, cannot be converted."))
           else WriteIobesTags(parsed.0, Some(|tags|)))
  }

  /** However deep the nesting may go, the two as-written functions never return: every BILOU parse recurses without end. */
  lemma {:induction false} BilouAsWrittenNeverReturns(tags: seq<string>, fuel: nat)
    ensures ParseBilouAsWritten(tags, fuel) == None
    ensures BilouToIobesAsWritten(tags, fuel) == None
  {
    if fuel == 0 {
      assert ParseBilouAsWritten(tags, 0) == None;
    } else {
      BilouAsWrittenNeverReturns(tags, fuel - 1);
      assert BilouToIobesAsWritten(tags, fuel - 1) == None;
      assert ParseBilouAsWritten(tags, fuel) == None;
    }
  }

  // ------------------------------------------------- BMEWO parse as written

  /**
   * `parse_spans_bmewo_with_errors` as written (iobes/parse.py:193-196): it
   * parses `bmeow_to_iobes(tags)`, and `bmeow_to_iobes` (iobes/convert.py:387-399)
   * is `convert_tags` over the BMEWO parse again (imported at
   * iobes/convert.py:9 under the name `parse_spans_bmeow_with_errors`, read
   * here as the parse.py function). `fuel` bounds the depth of the nesting.
   */
  function ParseBmewoAsWritten(tags: seq<string>, fuel: nat): Option<(seq<Span>, seq<Error>)>
    decreases fuel, 0
  {
    if fuel == 0 then None
    else
      match BmeowToIobesAsWritten(tags, fuel - 1)
      case None => None
      case Some(Failure(_)) => None
      case Some(Success(iobes)) => Some(ParseIobes(iobes))
  }

  /** `bmeow_to_iobes` as written: `convert_tags` over the BMEWO parse as written. */
  function BmeowToIobesAsWritten(tags: seq<string>, fuel: nat): Option<Tags>
    decreases fuel, 1
  {
    match ParseBmewoAsWritten(tags, fuel)
    case None => None
    case Some(parsed) =>
      Some(if |parsed.1| > 0 then Failure(ValueError("Found errors in the tag sequence, cannot be converted."))
           else WriteIobesTags(parsed.0, Some(|tags|)))
  }

  /** The BMEWO parse as written never returns either, at any depth. */
  lemma {:induction false} BmewoAsWrittenNeverReturns(tags: seq<string>, fuel: nat)
    ensures ParseBmewoAsWritten(tags, fuel) == None
    ensures BmeowToIobesAsWritten(tags, fuel) == None
  {
    if fuel == 0 {
      assert ParseBmewoAsWritten(tags, 0) == None;
    } else {
      BmewoAsWrittenNeverReturns(tags, fuel - 1);
      assert BmeowToIobesAsWritten(tags, fuel - 1) == None;
      assert ParseBmewoAsWritten(tags, fuel) == None;
    }
  }
}
