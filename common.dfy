/** Values shared by every part of the NGSmethDB client model: optional and
    fallible results, the loosely typed JSON scalars the API returns, the
    falsy-to-placeholder rule used when rows are written, regions and the
    abstract output directory. */
module Common {

  datatype Option<+T> = None | Some(value: T)

  datatype Result<+T, +E> = Success(value: T) | Failure(error: E)

  /** A JSON scalar as the client sees it after decoding. */
  datatype Value = Null | Str(s: string) | Int(i: int) | Real(r: real)

  /** Python truthiness of a scalar: None, "", 0 and 0.0 are false. */
  predicate Falsy(v: Value)
  {
    v == Null || v == Str("") || v == Int(0) || v == Real(0.0)
  }

  /** The cell written for `v`: `str(v) if v else placeholder`. */
  function Normalize(v: Value, placeholder: string): (r: Value)
    requires placeholder != ""
    ensures Falsy(v) ==> r == Str(placeholder)
    ensures !Falsy(v) ==> r == v
    ensures !Falsy(r)
  {
    if Falsy(v) then Str(placeholder) else v
  }

  /** Applies Normalize to every cell of a row. */
  function NormalizeRow(row: seq<Value>, placeholder: string): (r: seq<Value>)
    requires placeholder != ""
    ensures |r| == |row|
    ensures forall i :: 0 <= i < |row| ==> r[i] == Normalize(row[i], placeholder)
  {
    if row == [] then [] else NormalizeRow(row[..|row| - 1], placeholder) + [Normalize(row[|row| - 1], placeholder)]
  }

  function OptNat(o: Option<nat>): Value
  {
    match o
    case None => Null
    case Some(n) => Int(n)
  }

  function OptReal(o: Option<real>): Value
  {
    match o
    case None => Null
    case Some(x) => Real(x)
  }

  /** A region as the BED reader yields it: three strings, 1-based closed. */
  datatype Region = Region(chrom: string, start: string, end: string)

  /** One line of an output file: a header (field names) or a data row. */
  datatype Line = Header(names: seq<string>) | Row(cells: seq<Value>)

  /** The output files the client writes, per region. */
  datatype FileName =
    | MethCg(region: Region, sample: string)      // meth_cg/<region>/<sample>.tsv
    | Intraindividual(region: Region)             // diffmeth_cg/<region>/intraindividual.tsv
    | Interindividual(region: Region)             // diffmeth_cg/<region>/interindividual.tsv
    | Summary(region: Region)                     // stats/<region>/summary_stat.tsv
    | Histogram(region: Region)                   // stats/<region>/histogram.tsv
    | SegmentFile(region: Region)                 // segments/<region>.tsv

  /** The content of `name`, or None when the file does not exist. */
  function Get(files: map<FileName, seq<Line>>, name: FileName): Option<seq<Line>>
  {
    if name in files then Some(files[name]) else None
  }

  /** Why a region aborts the whole run. */
  datatype Fault =
    | BadSampleId(sample: string)       // sample.split('.') does not give two parts
    | MissingEntry(sample: string)      // a KeyError in the nested position record
    | ZeroCoverage(sample: string)      // methylatedReads/coverage with coverage 0
    | RatioOutOfRange(sample: string)   // round(methRatio, 1) is no histogram key
    | NoSamples                         // the summary reads a sample that was never bound
    | SegmentCountKey(sample: string)   // an individual named like the sampleCount entry

  // ---------------------------------------------------------------- sequence facts
  // Proof helpers with no counterpart in the client: small sequence
  // equalities stated once so that larger proofs stay cheap.

  /** The prefix one longer ends with the next element. */
  lemma TakeStep<T>(s: seq<T>, k: nat)
    requires k < |s|
    ensures s[..k + 1][..k] == s[..k] && s[..k + 1][k] == s[k]
  {
  }

  /** Appending an element keeps the sequence as the prefix. */
  lemma AppendPrefix<T>(s: seq<T>, x: T)
    ensures (s + [x])[..|s|] == s
  {
  }

  /** A non-empty sequence is its initial part and its last element. */
  lemma InitLast<T>(s: seq<T>)
    requires s != []
    ensures s == s[..|s| - 1] + [s[|s| - 1]]
  {
  }
}
