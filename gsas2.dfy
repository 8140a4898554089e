/** The GSAS-II datatypes: five file formats, each with a fixed extension and
    a sniffer that decides from a bounded prefix of the file's text whether a
    file is of that format. The file's contents are a string argument. */
module Gsas2 {
  import opened Text

  datatype Option<T> = None | Some(value: T)

  /** The PRM header: twelve spaces, then the column ruler "1234567890". */
  const PrmHeader: string := "            1234567890"
  /** The phrase an INSTPRM file carries near its start. */
  const InstprmMarker: string := "GSAS-II instrument parameter file"
  /** The two phrases a GSA powder-data header carries. */
  const SampleRun: string := "Sample Run:"
  const Wavelength: string := "Wavelength:"

  /** `Gsas2Project.sniff`: sniffing is disabled, the user sets the type. */
  predicate SniffGsas2Project(contents: string) {
    false
  }

  /** `Prm.sniff`: the first 22 characters are exactly the PRM header. */
  predicate SniffPrm(contents: string) {
    Read(contents, 22) == PrmHeader
  }

  /** `Instprm.sniff`: the marker occurs within the first 50 characters. */
  predicate SniffInstprm(contents: string) {
    Contains(Read(contents, 50), InstprmMarker)
  }

  /** `RawPowderData.sniff`: sniffing is disabled, the user sets the type. */
  predicate SniffRawPowderData(contents: string) {
    false
  }

  /** `GsaPowderData.sniff`: both phrases occur within the first 70 characters. */
  predicate SniffGsaPowderData(contents: string) {
    var header := Read(contents, 70);
    Contains(header, SampleRun) && Contains(header, Wavelength)
  }

  /** The five datatype classes, in the order the module declares them. */
  datatype Format = Gsas2Project | Prm | Instprm | RawPowderData | GsaPowderData {

    /** The class's `file_ext`. */
    function Extension(): (ext: string) {
      match this
      case Gsas2Project => "gpx"
      case Prm => "prm"
      case Instprm => "instprm"
      case RawPowderData => "raw"
      case GsaPowderData => "gsa"
    }

    /** How many characters the class's `sniff` reads; a disabled sniffer reads none. */
    function PrefixLength(): (n: nat) {
      match this
      case Gsas2Project => 0
      case Prm => 22
      case Instprm => 50
      case RawPowderData => 0
      case GsaPowderData => 70
    }

    /** False for the two classes whose sniffing is switched off. */
    predicate SniffingEnabled() {
      !(Gsas2Project? || RawPowderData?)
    }

    /** The class's `sniff`, applied to the file's contents. */
    predicate Sniff(contents: string) {
      match this
      case Gsas2Project => SniffGsas2Project(contents)
      case Prm => SniffPrm(contents)
      case Instprm => SniffInstprm(contents)
      case RawPowderData => SniffRawPowderData(contents)
      case GsaPowderData => SniffGsaPowderData(contents)
    }
  }

  const AllFormats: seq<Format> := [Gsas2Project, Prm, Instprm, RawPowderData, GsaPowderData]

  /** The format whose `file_ext` is `ext`, if any. */
  function FromExtension(ext: string): (r: Option<Format>)
    ensures forall f: Format :: r == Some(f) <==> f.Extension() == ext
    ensures r.Some? ==> r.value in AllFormats
  {
    if ext == "gpx" then Some(Gsas2Project)
    else if ext == "prm" then Some(Prm)
    else if ext == "instprm" then Some(Instprm)
    else if ext == "raw" then Some(RawPowderData)
    else if ext == "gsa" then Some(GsaPowderData)
    else None
  }

  // ---------------------------------------------------------------------------
  // Extensions

  /** The five extensions are pairwise distinct, and every format is registered. */
  lemma ExtensionsDistinct()
    ensures forall f: Format, g: Format :: f.Extension() == g.Extension() ==> f == g
    ensures forall i, j :: 0 <= i < j < |AllFormats| ==>
              AllFormats[i].Extension() != AllFormats[j].Extension()
    ensures forall f: Format :: f in AllFormats
  {
    forall f: Format ensures f in AllFormats {
      match f
      case Gsas2Project => assert f == AllFormats[0];
      case Prm => assert f == AllFormats[1];
      case Instprm => assert f == AllFormats[2];
      case RawPowderData => assert f == AllFormats[3];
      case GsaPowderData => assert f == AllFormats[4];
    }
  }

  /** Looking a format up by its own extension gives back that format. */
  lemma FromExtensionRoundTrip(f: Format)
    ensures FromExtension(f.Extension()) == Some(f)
  {
  }

  // ---------------------------------------------------------------------------
  // Disabled sniffers

  /** A `gpx` project is never recognised from its contents. */
  lemma Gsas2ProjectNeverSniffed(contents: string)
    ensures !Gsas2Project.Sniff(contents)
  {
  }

  /** A `raw` powder-data file is never recognised from its contents. */
  lemma RawPowderDataNeverSniffed(contents: string)
    ensures !RawPowderData.Sniff(contents)
  {
  }

  /** A format's sniffer accepts some input exactly when its sniffing is enabled. */
  lemma SniffingEnabledIffSatisfiable(f: Format)
    ensures f.SniffingEnabled() <==> exists s :: f.Sniff(s)
  {
    match f
    case Prm =>
      assert Prm.Sniff(PrmHeader);
    case Instprm =>
      InstprmSniffExact(InstprmMarker);
      assert OccursAt(InstprmMarker, InstprmMarker, 0);
      assert Instprm.Sniff(InstprmMarker);
    case GsaPowderData =>
      var s := SampleRun + Wavelength;
      GsaPowderDataSniffExact(s);
      assert OccursAt(s, SampleRun, 0);
      assert OccursAt(s, Wavelength, 11);
      assert GsaPowderData.Sniff(s);
    case _ =>
  }

  // ---------------------------------------------------------------------------
  // The enabled sniffers, exactly

  /** PRM: accepted exactly when the first 22 characters are twelve spaces and
      then the digits 1 to 9 and 0; so anything shorter than 22 is rejected. */
  lemma PrmSniffExact(s: string)
    ensures SniffPrm(s) <==> |s| >= 22 && s[..22] == PrmHeader
    ensures SniffPrm(s) <==>
              |s| >= 22 &&
              (forall i :: 0 <= i < 12 ==> s[i] == ' ') &&
              (forall i :: 12 <= i < 22 ==> s[i] == "1234567890"[i - 12])
    ensures |s| < 22 ==> !SniffPrm(s)
  {
  }

  /** INSTPRM: accepted exactly when the 33-character marker occurs in `s`
      starting at an index of at most 17, the last start that fits in 50. */
  lemma InstprmSniffExact(s: string)
    ensures SniffInstprm(s) <==> exists i :: 0 <= i <= 17 && OccursAt(s, InstprmMarker, i)
  {
    ContainsInPrefix(s, 50, InstprmMarker);
  }

  /** GSA: accepted exactly when each phrase occurs starting at an index of at
      most 59, so that it ends within the first 70 characters. */
  lemma GsaPowderDataSniffExact(s: string)
    ensures SniffGsaPowderData(s) <==>
              (exists i :: 0 <= i <= 59 && OccursAt(s, SampleRun, i)) &&
              (exists j :: 0 <= j <= 59 && OccursAt(s, Wavelength, j))
  {
    ContainsInPrefix(s, 70, SampleRun);
    ContainsInPrefix(s, 70, Wavelength);
  }

  /** Either GSA phrase on its own is rejected: a header needs both. */
  lemma GsaPowderDataNeedsBoth()
    ensures !SniffGsaPowderData(SampleRun) && !SniffGsaPowderData(Wavelength)
  {
    GsaPowderDataSniffExact(SampleRun);
    GsaPowderDataSniffExact(Wavelength);
    forall j | 0 <= j <= 59 ensures !OccursAt(SampleRun, Wavelength, j) {
      if j == 0 {
        assert SampleRun[0] != Wavelength[0];
      }
    }
    forall i | 0 <= i <= 59 ensures !OccursAt(Wavelength, SampleRun, i) {
      if i == 0 {
        assert Wavelength[0] != SampleRun[0];
      }
    }
  }

  // ---------------------------------------------------------------------------
  // Bounded reads

  /** Each sniffer looks at no more than its declared prefix: it gives the same
      answer on that prefix alone, and text appended after it changes nothing. */
  lemma SniffDependsOnlyOnPrefix(f: Format, s: string, t: string)
    ensures f.Sniff(s) == f.Sniff(Read(s, f.PrefixLength()))
    ensures |s| >= f.PrefixLength() ==> f.Sniff(s + t) == f.Sniff(s)
  {
    var n := f.PrefixLength();
    assert Read(Read(s, n), n) == Read(s, n);
    if |s| >= n {
      ReadIgnoresSuffix(s, t, n);
    }
  }

  // ---------------------------------------------------------------------------
  // Mutual exclusion

  /** No file is both a PRM and an INSTPRM file: the marker would have to start
      below index 18 with a 'G', where a PRM header has only spaces and digits. */
  lemma PrmInstprmDisjoint(s: string)
    ensures !(SniffPrm(s) && SniffInstprm(s))
  {
    if SniffInstprm(s) {
      InstprmSniffExact(s);
      var i :| 0 <= i <= 17 && OccursAt(s, InstprmMarker, i);
      assert s[i] == InstprmMarker[0] == 'G';
      if |s| >= 22 {
        assert s[..22][i] == 'G' != PrmHeader[i];
      }
    }
  }

  // ---------------------------------------------------------------------------
  // Sample headers

  /** A file starting with the PRM header is a PRM file, whatever follows. */
  lemma PrmSampleHeader(t: string)
    ensures Prm.Sniff(PrmHeader + t)
  {
  }

  /** A file starting with "#" and the marker is an INSTPRM file, whatever follows. */
  lemma InstprmSampleHeader(t: string)
    ensures Instprm.Sniff("#" + InstprmMarker + t)
  {
  }

  /** The two GSA phrases cannot overlap: no suffix of one begins the other. */
  lemma GsaPhrasesApart(s: string, i: int, j: int)
    requires OccursAt(s, SampleRun, i) && OccursAt(s, Wavelength, j)
    ensures i + 11 <= j || j + 11 <= i
  {
    assert s[i..i + 11][0] == s[i] && s[j..j + 11][0] == s[j];
  }

  /** Every sniffer needs at least 22 characters to accept: PRM reads exactly
      22, the INSTPRM marker alone has 33, and the two GSA phrases take 22
      because they cannot overlap. So no file shorter than that is recognised. */
  lemma SniffNeedsTwentyTwo(f: Format, s: string)
    ensures f.Sniff(s) ==> |s| >= 22
  {
    if f.Sniff(s) {
      match f
      case Prm =>
        PrmSniffExact(s);
      case Instprm =>
        InstprmSniffExact(s);
      case GsaPowderData =>
        GsaPowderDataSniffExact(s);
        var i :| 0 <= i <= 59 && OccursAt(s, SampleRun, i);
        var j :| 0 <= j <= 59 && OccursAt(s, Wavelength, j);
        GsaPhrasesApart(s, i, j);
    }
  }

  /** A file whose first line carries "Sample Run:", then at most 48 more
      characters, then "Wavelength:" is a GSA file, whatever follows. */
  lemma GsaSampleHeader(u: string, t: string)
    requires |u| <= 48
    ensures GsaPowderData.Sniff(SampleRun + u + Wavelength + t)
  {
    var s := SampleRun + u + Wavelength + t;
    assert s[0..11] == SampleRun;
    assert s[11 + |u|..22 + |u|] == Wavelength;
    assert OccursAt(s, SampleRun, 0);
    assert OccursAt(s, Wavelength, 11 + |u|);
    GsaPowderDataSniffExact(s);
  }

  // ---------------------------------------------------------------------------
  // Overlaps

  /** Unlike PRM and INSTPRM, the INSTPRM and GSA sniffers can both accept one
      file: the marker fits in the first 50 characters and the two GSA phrases
      after it still end within the first 70. */
  lemma InstprmGsaOverlap()
    ensures exists s :: SniffInstprm(s) && SniffGsaPowderData(s)
  {
    var s := InstprmMarker + SampleRun + Wavelength;
    assert s[0..33] == InstprmMarker;
    assert s[33..44] == SampleRun;
    assert s[44..55] == Wavelength;
    assert OccursAt(s, InstprmMarker, 0);
    assert OccursAt(s, SampleRun, 33);
    assert OccursAt(s, Wavelength, 44);
    InstprmSniffExact(s);
    GsaPowderDataSniffExact(s);
  }

  /** The PRM and GSA sniffers can both accept one file: PRM looks only at the
      first 22 characters, and the two GSA phrases fit after them. */
  lemma PrmGsaOverlap()
    ensures exists s :: SniffPrm(s) && SniffGsaPowderData(s)
  {
    var s := PrmHeader + SampleRun + Wavelength;
    assert s[..22] == PrmHeader;
    assert s[22..33] == SampleRun;
    assert s[33..44] == Wavelength;
    assert OccursAt(s, SampleRun, 22);
    assert OccursAt(s, Wavelength, 33);
    GsaPowderDataSniffExact(s);
  }
}
