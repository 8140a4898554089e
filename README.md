# GSAS-II datatype sniffers

A Dafny model of the GSAS-II datatypes of the Galaxy data platform
(`lib/galaxy/datatypes/gsas2.py`). Each of five datatype classes has a fixed
file extension (`file_ext`) and a `sniff` method that reads a bounded prefix of
an uploaded file as text and decides whether the file is of that format:

- `Gsas2Project` (`gpx`) and `RawPowderData` (`raw`): sniffing is switched off,
  `sniff` always answers false and the user sets the type by hand;
- `Prm` (`prm`): the first 22 characters equal twelve spaces followed by
  `1234567890`;
- `Instprm` (`instprm`): `GSAS-II instrument parameter file` occurs in the
  first 50 characters;
- `GsaPowderData` (`gsa`): both `Sample Run:` and `Wavelength:` occur in the
  first 70 characters.

Files:

- `text.dfy`, module `Text`: `Read(s, n)`, the model of `open(f).read(n)`
  (at most `n` characters, a shorter file gives all of it and no error), and
  `Contains(hay, needle)`, Python's `needle in hay`, proved equal to "the
  needle occurs at some index".
- `gsas2.dfy`, module `Gsas2`: the five sniffers as predicates over the file's
  contents, the `Format` datatype (one constructor per class, with its
  extension, the length its sniffer reads, whether sniffing is enabled and its
  sniffer), the lookup from extension to format, and the lemmas below.

The file's contents are a string argument: the text Python's `open()` yields
in text mode, that is, after decoding and after newline translation (`\r\n`
and `\r` both become `\n`). The 22, 50 and 70 character windows therefore
count translated characters, not raw bytes. Opening and decoding the file are
not modelled: Python's text layer decodes a whole buffered chunk (8192 bytes
by default), so undecodable bytes after the prefix can still make `sniff`
raise. The statements below that a short read never fails, and that text
after a sniffer's prefix never changes its answer, are statements about the
decoded string, not about the file's bytes. A Dafny function is total, so
every sniffer gives an answer for every string.

## Model

| member | source | states |
|---|---|---|
| `Text.Read` | lib/galaxy/datatypes/gsas2.py:50 | a read of `n` characters yields a prefix of the decoded text of length min(n, length); a text no longer than `n` is read whole |
| `Text.Contains` | lib/galaxy/datatypes/gsas2.py:76 | Python's `needle in hay`; specified by `Text.ContainsIffOccurs` |
| `Text.ContainsIffOccurs` | lib/galaxy/datatypes/gsas2.py:76 | the substring test `needle in hay` holds exactly when the needle occurs at some index of the hay (both directions) |
| `Text.ContainsInPrefix` | lib/galaxy/datatypes/gsas2.py:75-76 | `needle in read(n)` holds exactly when the needle occurs in the file at a start index that leaves it wholly inside the first `n` characters |
| `Text.ReadIgnoresSuffix` | lib/galaxy/datatypes/gsas2.py:115 | once the file has at least `n` characters, text appended after them does not change what a read of `n` returns |
| `Gsas2.SniffGsas2Project` | lib/galaxy/datatypes/gsas2.py:22-26 | `Gsas2Project.sniff`; specified by `Gsas2.Gsas2ProjectNeverSniffed` |
| `Gsas2.SniffPrm` | lib/galaxy/datatypes/gsas2.py:50-51 | `Prm.sniff`; specified by `Gsas2.PrmSniffExact` |
| `Gsas2.SniffInstprm` | lib/galaxy/datatypes/gsas2.py:75-76 | `Instprm.sniff`; specified by `Gsas2.InstprmSniffExact` |
| `Gsas2.SniffRawPowderData` | lib/galaxy/datatypes/gsas2.py:87-91 | `RawPowderData.sniff`; specified by `Gsas2.RawPowderDataNeverSniffed` |
| `Gsas2.SniffGsaPowderData` | lib/galaxy/datatypes/gsas2.py:115-117 | `GsaPowderData.sniff`; specified by `Gsas2.GsaPowderDataSniffExact` |
| `Gsas2.Format.Extension` | lib/galaxy/datatypes/gsas2.py:19-99 | each class's `file_ext`; specified by `Gsas2.ExtensionsDistinct` and `Gsas2.FromExtensionRoundTrip` |
| `Gsas2.Format.Sniff` | lib/galaxy/datatypes/gsas2.py:22-117 | each class's `sniff`, dispatching to the five predicates above; specified by `Gsas2.SniffingEnabledIffSatisfiable`, `Gsas2.SniffDependsOnlyOnPrefix` and `Gsas2.SniffNeedsTwentyTwo` |
| `Gsas2.Gsas2ProjectNeverSniffed` | lib/galaxy/datatypes/gsas2.py:20-26 | a `gpx` project is rejected whatever its contents |
| `Gsas2.RawPowderDataNeverSniffed` | lib/galaxy/datatypes/gsas2.py:85-91 | a `raw` powder-data file is rejected whatever its contents |
| `Gsas2.SniffingEnabledIffSatisfiable` | lib/galaxy/datatypes/gsas2.py:13-117 | a format's sniffer accepts some input if and only if its sniffing is enabled; exactly `gpx` and `raw` are disabled |
| `Gsas2.PrmSniffExact` | lib/galaxy/datatypes/gsas2.py:50-51 | PRM accepts exactly when the contents have at least 22 characters, of which the first 12 are spaces and the next 10 are the digits 1..9, 0; shorter input is rejected |
| `Gsas2.InstprmSniffExact` | lib/galaxy/datatypes/gsas2.py:75-76 | INSTPRM accepts exactly when the 33-character marker occurs at a start index of at most 17 |
| `Gsas2.GsaPowderDataSniffExact` | lib/galaxy/datatypes/gsas2.py:115-117 | GSA accepts exactly when `Sample Run:` and `Wavelength:` each occur at a start index of at most 59, i.e. end within the first 70 characters |
| `Gsas2.GsaPowderDataNeedsBoth` | lib/galaxy/datatypes/gsas2.py:116 | either phrase on its own is rejected: a header needs both |
| `Gsas2.SniffDependsOnlyOnPrefix` | lib/galaxy/datatypes/gsas2.py:50-115 | every sniffer gives the same answer on the prefix it reads (22, 50, 70, or none) as on the whole file, and appending text after that prefix never changes its answer |
| `Gsas2.PrmInstprmDisjoint` | lib/galaxy/datatypes/gsas2.py:41-76 | no contents are accepted by both the PRM and the INSTPRM sniffer, which the doctests check on one sample of each |
| `Gsas2.PrmSampleHeader` | lib/galaxy/datatypes/gsas2.py:40-43 | any file that starts with the PRM header is accepted as PRM |
| `Gsas2.InstprmSampleHeader` | lib/galaxy/datatypes/gsas2.py:65-68 | any file that starts with `#GSAS-II instrument parameter file` is accepted as INSTPRM |
| `Gsas2.GsaSampleHeader` | lib/galaxy/datatypes/gsas2.py:105-108 | any file that starts with `Sample Run:`, then at most 48 characters, then `Wavelength:` is accepted as GSA |
| `Gsas2.InstprmGsaOverlap` | lib/galaxy/datatypes/gsas2.py:75-116 | some contents are accepted by both the INSTPRM and the GSA sniffer, so the two do not exclude each other |
| `Gsas2.PrmGsaOverlap` | lib/galaxy/datatypes/gsas2.py:50-116 | some contents are accepted by both the PRM and the GSA sniffer |
| `Gsas2.GsaPhrasesApart` | lib/galaxy/datatypes/gsas2.py:116 | occurrences of `Sample Run:` and `Wavelength:` in one text never overlap |
| `Gsas2.SniffNeedsTwentyTwo` | lib/galaxy/datatypes/gsas2.py:50-117 | no sniffer accepts contents shorter than 22 characters, so short unrelated text is recognised as nothing |
| `Gsas2.ExtensionsDistinct` | lib/galaxy/datatypes/gsas2.py:19-99 | the extensions `gpx`, `prm`, `instprm`, `raw`, `gsa` are pairwise distinct and every format is in the list of the five |
| `Gsas2.FromExtension` | lib/galaxy/datatypes/gsas2.py:19-99 | looking up an extension gives the one format whose `file_ext` it is, and nothing for any other string |
| `Gsas2.FromExtensionRoundTrip` | lib/galaxy/datatypes/gsas2.py:19-99 | looking up a format's own extension gives back that format |

## Left out

- Opening the file, decoding its bytes to characters, and the file handle the
  source never closes: the contents are given as a string.
- The `Binary` and `Text` base classes and the rest of Galaxy's datatype
  machinery (metadata, display, the sniffer registry and the order in which it
  tries sniffers): they are not part of this model.
- The doctests' sample files (`gsas_instrument.prm`,
  `gsas_instrument.instprm`, `gsas_powder.gsa`): their contents are not part
  of this model. The PRM and INSTPRM doctests are modelled by lemmas about
  every file that starts with the format's header and by the PRM/INSTPRM
  exclusion lemma. The first GSA doctest is modelled by a lemma about every
  file whose header carries both phrases close enough together. The second
  GSA doctest (the INSTPRM sample is not a GSA file) is not modelled: whether
  it holds depends on what the sample file contains, since INSTPRM and GSA can
  both accept one file (`Gsas2.InstprmGsaOverlap`).
- Reading `.gpx` projects with pickle and latin-1 decoding, mentioned only in a
  docstring, and the module's logger.
- `test/unit/tool_util/test_tool_linters.py`: fixtures for a tool linter whose
  rules are not part of this model.
