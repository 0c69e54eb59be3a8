/**
 * Tag construction (iobes/write.py, lines 91-162): `_make_tag` and the
 * per-scheme begin/inside/end/single tag builders, gathered into one
 * SpanFormat record per scheme.
 */
module Format {
  import opened Iobes
  import opened TagUtils

  /** `_make_tag`: prefix, delimiter, span type. */
  function MakeTag(prefix: string, spanType: string, delimiter: string): string {
    prefix + delimiter + spanType
  }

  /** The token function written at each role of a span. */
  datatype SpanFormat = SpanFormat(begin: string, inside: string, end: string, single: string)

  const BioFormat := SpanFormat(Begin, Inside, Inside, Begin)
  const IobesFormat := SpanFormat(Begin, Inside, End, Single)
  const BilouFormat := SpanFormat(Begin, Inside, Last, Unit)
  const BmeowFormat := SpanFormat(Begin, Middle, End, Whole)

  /** The `*_start_tag`, `*_inside_tag`, `*_end_tag` and `*_single_tag` builders. */
  function StartTag(fmt: SpanFormat, spanType: string): string { MakeTag(fmt.begin, spanType, Sep) }
  function InsideTag(fmt: SpanFormat, spanType: string): string { MakeTag(fmt.inside, spanType, Sep) }
  function EndTag(fmt: SpanFormat, spanType: string): string { MakeTag(fmt.end, spanType, Sep) }
  function SingleTag(fmt: SpanFormat, spanType: string): string { MakeTag(fmt.single, spanType, Sep) }

  /** The codes every scheme format uses: one letter each, never the separator. */
  predicate CodeFormat(fmt: SpanFormat) {
    && |fmt.begin| == 1 && '-' !in fmt.begin
    && |fmt.inside| == 1 && '-' !in fmt.inside
    && |fmt.end| == 1 && '-' !in fmt.end
    && |fmt.single| == 1 && '-' !in fmt.single
  }

  /**
   * A tag built by `_make_tag` splits back into its prefix and type when the
   * prefix holds no delimiter, and, holding the delimiter, is never `O`.
   */
  lemma MakeTagSplits(prefix: string, spanType: string)
    requires '-' !in prefix
    ensures ExtractFunction(MakeTag(prefix, spanType, Sep), Sep) == prefix
    ensures ExtractType(MakeTag(prefix, spanType, Sep), Sep) == spanType
    ensures MakeTag(prefix, spanType, Sep) != Outside
  {
    CodeTagSplits(prefix, spanType);
    var tag := MakeTag(prefix, spanType, Sep);
    assert tag[|prefix|] == '-';
    assert '-' !in Outside;
  }

  /** The scheme tags: BIO B/I/I/B, IOBES B/I/E/S, BILOU B/I/L/U, BMEOW B/M/E/W. */
  lemma SchemeTags(t: string)
    ensures StartTag(BioFormat, t) == "B-" + t && InsideTag(BioFormat, t) == "I-" + t
    ensures EndTag(BioFormat, t) == "I-" + t && SingleTag(BioFormat, t) == "B-" + t
    ensures EndTag(IobesFormat, t) == "E-" + t && SingleTag(IobesFormat, t) == "S-" + t
    ensures EndTag(BilouFormat, t) == "L-" + t && SingleTag(BilouFormat, t) == "U-" + t
    ensures InsideTag(BmeowFormat, t) == "M-" + t && SingleTag(BmeowFormat, t) == "W-" + t
    ensures CodeFormat(BioFormat) && CodeFormat(IobesFormat) && CodeFormat(BilouFormat) && CodeFormat(BmeowFormat)
  {
  }
}
