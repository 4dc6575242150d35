/** Default values and controlled vocabularies of the registry (dpres_file_formats/defaults.py). */
module Defaults {
  import opened Wrappers

  /** The "not applicable" sentinel, used as the version of formats without versions. */
  const UNAP: string := "(:unap)"

  /** The character sets a text format accepts. */
  const ALLOWED_CHARSETS: seq<string> := ["ISO-8859-15", "UTF-8", "UTF-16", "UTF-32"]

  /** Digital preservation grades, strongest first. */
  datatype Grade = Recommended | Acceptable | WithRecommended | BitLevel | Unacceptable
  {
    /** The string the registry stores for this grade. */
    function Value(): string
    {
      match this
      case Recommended => "fi-dpres-recommended-file-format"
      case Acceptable => "fi-dpres-acceptable-file-format"
      case WithRecommended => "fi-dpres-bit-level-file-format-with-recommended"
      case BitLevel => "fi-dpres-bit-level-file-format"
      case Unacceptable => "fi-dpres-unacceptable-file-format"
    }
  }

  /** The grade whose stored string is `s`, if any. */
  function GradeOfValue(s: string): (g: Option<Grade>)
    ensures g.Some? ==> g.value.Value() == s
  {
    if s == Recommended.Value() then Some(Recommended)
    else if s == Acceptable.Value() then Some(Acceptable)
    else if s == WithRecommended.Value() then Some(WithRecommended)
    else if s == BitLevel.Value() then Some(BitLevel)
    else if s == Unacceptable.Value() then Some(Unacceptable)
    else None
  }

  /** Distinct grades are stored as distinct strings, so the stored string identifies the grade. */
  lemma GradeValueRoundTrip(g: Grade)
    ensures GradeOfValue(g.Value()) == Some(g)
  {
    assert Recommended.Value()[9] == 'r' && Acceptable.Value()[9] == 'a';
    assert WithRecommended.Value()[9] == 'b' && BitLevel.Value()[9] == 'b';
    assert |WithRecommended.Value()| != |BitLevel.Value()|;
    assert Unacceptable.Value()[9] == 'u';
  }

  /** Content types of a file format. */
  datatype ContentType =
    | Text | Audio | Video | Image | Warc | Geospatial | Database | Research | Scientific
    | AudioContainer | VideoContainer
  {
    function Value(): string
    {
      match this
      case Text => "text"
      case Audio => "audio"
      case Video => "video"
      case Image => "still image"
      case Warc => "web archive"
      case Geospatial => "geospatial data"
      case Database => "databases"
      case Research => "research data"
      case Scientific => "scientific software"
      case AudioContainer => "audiocontainer"
      case VideoContainer => "videocontainer"
    }
  }

  /** Schemas of required technical metadata. */
  datatype TechMetadata = ImageMetadata | AudioMetadata | VideoMetadata | CsvMetadata
  {
    function Value(): string
    {
      match this
      case ImageMetadata => "MIX"
      case AudioMetadata => "audioMD"
      case VideoMetadata => "videoMD"
      case CsvMetadata => "ADDML"
    }
  }

  /** Relationship types between formats (PREMIS relationship subtypes). */
  datatype RelationshipType = Superseded | Supersedes
  {
    function Value(): string
    {
      match this
      case Superseded => "is superseded by"
      case Supersedes => "supersedes"
    }
  }

  /** Versions of the DPS file format specification. */
  datatype DpsSpecVersion = V3 | V4 | V5 | V6 | V7 | V8 | V9 | V10 | V11 | V12
  {
    function Value(): string
    {
      match this
      case V3 => "1.3.0"
      case V4 => "1.4.0"
      case V5 => "1.5.0"
      case V6 => "1.6.0"
      case V7 => "1.7.0"
      case V8 => "1.8.0"
      case V9 => "1.9.0"
      case V10 => "1.10.0"
      case V11 => "1.11.0"
      case V12 => "1.12.0"
    }
  }
}
