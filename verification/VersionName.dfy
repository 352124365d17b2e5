/**
 `parse_explicit_file_version_name`: names like `report-v3.txt`, split into a base, a version and an
 extension. Trimming and Unicode normalisation are parameters. File names are those of Unix.
 */
module VersionName {
  import opened Wrappers
  import opened Utf8
  import opened Numerals

  const DOT: byte := 0x2E
  const SLASH: byte := 0x2F
  const HYPHEN: byte := 0x2D
  const UNDERSCORE: byte := 0x5F
  const SPACE: byte := 0x20
  const LOWER_V: byte := 0x76
  const UPPER_V: byte := 0x56

  const MARKERS: seq<Bytes> := [
    [HYPHEN, LOWER_V], [HYPHEN, UPPER_V], [UNDERSCORE, LOWER_V], [UNDERSCORE, UPPER_V],
    [SPACE, LOWER_V], [SPACE, UPPER_V], [DOT, LOWER_V], [DOT, UPPER_V]]

  const MAX_VERSION: nat := 999_999
  const MAX_DIGITS: nat := 6
  const MAX_BASE_BYTES: nat := 1_024
  const MAX_EXTENSION_BYTES: nat := 64

  predicate IsMarker(marker: Bytes) {
    marker in MARKERS
  }

  lemma MarkerBytes(marker: Bytes)
    requires IsMarker(marker)
    ensures |marker| == 2
    ensures marker[0] == HYPHEN || marker[0] == UNDERSCORE || marker[0] == SPACE || marker[0] == DOT
    ensures marker[1] == LOWER_V || marker[1] == UPPER_V
  {
  }

  predicate OccursAt(s: Bytes, part: Bytes, i: nat) {
    i + |part| <= |s| && s[i..i + |part|] == part
  }

  /** The last occurrence that starts at `from` or before. */
  function LastOccurrence(s: Bytes, part: Bytes, from: nat): (found: Option<nat>)
    ensures found.Some? ==> found.value <= from && OccursAt(s, part, found.value)
    ensures forall i :: 0 <= i <= from && OccursAt(s, part, i) ==> found.Some? && i <= found.value
  {
    if OccursAt(s, part, from) then Some(from)
    else if from == 0 then None
    else LastOccurrence(s, part, from - 1)
  }

  /** `str::rfind`. */
  function RFind(s: Bytes, part: Bytes): Option<nat> {
    LastOccurrence(s, part, |s|)
  }

  /** The marker with the last occurrence. */
  function LastMarker(stem: Bytes, markers: seq<Bytes>): (found: Option<(nat, Bytes)>)
    ensures found.Some? ==> found.value.1 in markers && OccursAt(stem, found.value.1, found.value.0)
    ensures forall k, i: nat :: 0 <= k < |markers| && OccursAt(stem, markers[k], i)
                           ==> found.Some? && i <= found.value.0
  {
    if markers == [] then None
    else
      var front, last := LastMarker(stem, markers[..|markers| - 1]), markers[|markers| - 1];
      var at := RFind(stem, last);
      if at.None? then front
      else if front.None? || front.value.0 <= at.value then Some((at.value, last))
      else front
  }

  /** `split_explicit_version_stem`. */
  function SplitStem(stem: Bytes): Option<(Bytes, nat)> {
    var found := LastMarker(stem, MARKERS);
    if found.None? then None
    else
      var (index, marker) := found.value;
      var digits := stem[index + |marker|..];
      if digits == [] || |digits| > MAX_DIGITS || !AllDigits(digits)
         || (|digits| > 1 && digits[0] == ZERO)
      then None
      else if !(1 <= NumberOf(digits) <= MAX_VERSION) then None
      else Some((stem[..index], NumberOf(digits)))
  }

  /** A stem that is written with a version is split into what it was written from. */
  lemma SplitReadsVersion(prefix: Bytes, marker: Bytes, version: nat)
    requires IsMarker(marker) && 1 <= version <= MAX_VERSION
    ensures SplitStem(prefix + marker + Decimal(version)) == Some((prefix, version))
  {
    hide LastMarker, IsMarker, Decimal, NumberOf;
    var digits := Decimal(version);
    var stem := prefix + marker + digits;
    LastMarkerIs(prefix, marker, digits);
    MarkerBytes(marker);
    assert stem[..|prefix|] == prefix && stem[|prefix| + 2..] == digits;
    DecimalRoundTrip(version);
    SixDigits(version);
  }

  lemma SixDigits(version: nat)
    ensures |Decimal(version)| <= MAX_DIGITS <==> version <= MAX_VERSION
  {
    assert Pow10(3) == 1000;
    DecimalLength(version, MAX_DIGITS);
  }

  lemma LastMarkerIs(prefix: Bytes, marker: Bytes, digits: Bytes)
    requires IsMarker(marker) && AllDigits(digits)
    ensures LastMarker(prefix + marker + digits, MARKERS) == Some((|prefix|, marker))
  {
    hide LastMarker;
    var stem := prefix + marker + digits;
    var found := LastMarker(stem, MARKERS);
    var k :| 0 <= k < |MARKERS| && MARKERS[k] == marker;
    assert OccursAt(stem, MARKERS[k], |prefix|);
    var (index, last) := found.value;
    MarkerBytes(marker);
    MarkerBytes(last);
    assert stem[index..index + 2] == last;
    assert stem[index] == last[0];
    assert marker == stem[|prefix|..|prefix| + 2];
  }

  /** Every stem that is split ends in a marker and a canonical numeral in range. */
  lemma SplitIsVersion(stem: Bytes) returns (marker: Bytes)
    requires SplitStem(stem).Some?
    ensures var (prefix, version) := SplitStem(stem).value;
            && IsMarker(marker) && 1 <= version <= MAX_VERSION
            && stem == prefix + marker + Decimal(version)
  {
    hide LastMarker, Decimal, NumberOf;
    var found := LastMarker(stem, MARKERS).value;
    var index := found.0;
    marker := found.1;
    NumeralRoundTrip(stem[index + |marker|..]);
    assert stem == stem[..index] + stem[index..index + |marker|] + stem[index + |marker|..];
  }

  /** Both parts that a stem is cut into are text: the cuts are at character boundaries. */
  lemma SplitIsText(stem: Text)
    requires SplitStem(stem).Some?
    ensures Valid(SplitStem(stem).value.0)
  {
    hide ValidFrom, LastMarker;
    var (index, marker) := LastMarker(stem, MARKERS).value;
    MarkerBytes(marker);
    assert stem[index] == marker[0];
    PrefixValid(stem, index);
  }

  // File names.

  /** Whether a name is the file name of the path it denotes. */
  predicate IsFileName(name: Bytes) {
    name != [] && SLASH !in name && name != [DOT] && name != [DOT, DOT]
  }

  /** `Path::file_stem` and `Path::extension` of a file name, which ends at its last dot unless that
      is its first character. */
  function StemAndExtension(name: Bytes): (Bytes, Option<Bytes>) {
    var dot := RFind(name, [DOT]);
    if dot.None? || dot.value == 0 then (name, None)
    else (name[..dot.value], Some(name[dot.value + 1..]))
  }

  datatype VersionName = VersionName(baseKey: Bytes, extensionKey: Bytes, version: nat)

  /** The checks on a base and an extension, and their keys. */
  function Keyed(base: Bytes, extension: Option<Bytes>, version: nat, normalized: Bytes -> Bytes)
    : Option<VersionName>
  {
    if base == [] || SplitStem(base).Some? then None
    else
      var baseKey := normalized(base);
      var extensionKey := normalized(if extension.None? then [] else extension.value);
      if baseKey == [] || |baseKey| > MAX_BASE_BYTES || |extensionKey| > MAX_EXTENSION_BYTES
      then None
      else Some(VersionName(baseKey, extensionKey, version))
  }

  /** `parse_explicit_file_version_name`. */
  function Parse(name: Bytes, trim: Bytes -> Bytes, normalized: Bytes -> Bytes)
    : Option<VersionName>
  {
    if !IsFileName(name) then None
    else
      var (stem, extension) := StemAndExtension(name);
      var split := SplitStem(stem);
      if split.None? then None
      else Keyed(trim(split.value.0), extension, split.value.1, normalized)
  }

  /** What a versioned name is written from. */
  datatype Parts = Parts(prefix: Bytes, marker: Bytes, version: nat, extension: Option<Bytes>)

  function StemOf(parts: Parts): Bytes {
    parts.prefix + parts.marker + Decimal(parts.version)
  }

  function Written(parts: Parts): Bytes {
    StemOf(parts) + (if parts.extension.None? then [] else [DOT] + parts.extension.value)
  }

  /** The extension starts after the last dot; without one there is no dot, but for a first one. */
  predicate Writable(parts: Parts) {
    && IsMarker(parts.marker) && 1 <= parts.version <= MAX_VERSION
    && SLASH !in parts.prefix
    && (if parts.extension.None? then DOT !in StemOf(parts)[1..]
        else DOT !in parts.extension.value && SLASH !in parts.extension.value)
  }

  lemma StemBytes(parts: Parts)
    requires IsMarker(parts.marker)
    ensures |StemOf(parts)| >= 3
    ensures SLASH in StemOf(parts) <==> SLASH in parts.prefix
  {
    hide IsMarker, Decimal;
    MarkerBytes(parts.marker);
    var digits := Decimal(parts.version);
    assert forall k :: 0 <= k < |digits| ==> digits[k] != SLASH;
  }

  lemma WrittenIsFileName(parts: Parts)
    requires Writable(parts)
    ensures IsFileName(Written(parts))
    ensures StemAndExtension(Written(parts)) == (StemOf(parts), parts.extension)
  {
    hide StemOf, IsMarker;
    StemBytes(parts);
    var stem, name := StemOf(parts), Written(parts);
    if parts.extension.None? {
      assert name == stem;
      forall i: nat | OccursAt(name, [DOT], i) ensures i == 0 {
        assert name[i..i + 1][0] == DOT;
      }
    } else {
      DotFollows(stem, parts.extension.value);
    }
  }

  lemma DotFollows(stem: Bytes, extension: Bytes)
    requires stem != [] && DOT !in extension
    ensures StemAndExtension(stem + ([DOT] + extension)) == (stem, Some(extension))
  {
    hide LastOccurrence;
    var name := stem + ([DOT] + extension);
    assert OccursAt(name, [DOT], |stem|);
    forall i: nat | OccursAt(name, [DOT], i) ensures i <= |stem| {
      assert name[i..i + 1][0] == DOT;
    }
    assert name[..|stem|] == stem && name[|stem| + 1..] == extension;
  }

  /** Whatever is written is read back: the outcome is that of the parts it was written from. */
  lemma ReadsWhatIsWritten(parts: Parts, trim: Bytes -> Bytes, normalized: Bytes -> Bytes)
    requires Writable(parts)
    ensures Parse(Written(parts), trim, normalized)
            == Keyed(trim(parts.prefix), parts.extension, parts.version, normalized)
  {
    hide IsFileName, StemAndExtension, SplitStem, Keyed, Written, IsMarker;
    WrittenIsFileName(parts);
    SplitReadsVersion(parts.prefix, parts.marker, parts.version);
  }

  /** Whatever is accepted was written so. */
  lemma AcceptedIsWritten(name: Bytes, trim: Bytes -> Bytes, normalized: Bytes -> Bytes)
    returns (parts: Parts)
    requires Parse(name, trim, normalized).Some?
    ensures Writable(parts) && Written(parts) == name
  {
    hide SplitStem, Keyed, IsMarker, Decimal, LastOccurrence;
    var (stem, extension) := StemAndExtension(name);
    var (prefix, version) := SplitStem(stem).value;
    var marker := SplitIsVersion(stem);
    parts := Parts(prefix, marker, version, extension);
    StemBytes(parts);
    StemIsPrefix(name);
  }

  lemma StemIsPrefix(name: Bytes)
    requires IsFileName(name)
    ensures var (stem, extension) := StemAndExtension(name);
            && name == stem + (if extension.None? then [] else [DOT] + extension.value)
            && SLASH !in stem
            && (if extension.None? then DOT !in name[1..]
                else DOT !in extension.value && SLASH !in extension.value)
  {
    hide LastOccurrence;
    var dot := RFind(name, [DOT]);
    forall i | 0 <= i < |name| && name[i] == DOT ensures dot.Some? && i <= dot.value {
      assert OccursAt(name, [DOT], i);
    }
    if dot.Some? {
      assert name[dot.value..dot.value + 1] == [DOT];
    }
  }

  /** A name is accepted with a result exactly when it is written from parts with that result, and
      a name is written in one way only. */
  lemma AcceptedIffWritten(
    name: Bytes, trim: Bytes -> Bytes, normalized: Bytes -> Bytes, result: VersionName)
    ensures Parse(name, trim, normalized) == Some(result)
            <==> exists parts :: Writable(parts) && Written(parts) == name
                   && Keyed(trim(parts.prefix), parts.extension, parts.version, normalized)
                      == Some(result)
  {
    hide Parse, Writable, Written, Keyed;
    if Parse(name, trim, normalized) == Some(result) {
      var parts := AcceptedIsWritten(name, trim, normalized);
      ReadsWhatIsWritten(parts, trim, normalized);
    }
    forall parts | Writable(parts) && Written(parts) == name
      ensures Parse(name, trim, normalized)
              == Keyed(trim(parts.prefix), parts.extension, parts.version, normalized)
    {
      ReadsWhatIsWritten(parts, trim, normalized);
    }
  }

  lemma WrittenOneWay(parts: Parts, other: Parts)
    requires Writable(parts) && Writable(other) && Written(parts) == Written(other)
    ensures parts == other
  {
    hide IsMarker, Written, StemAndExtension, Decimal;
    WrittenIsFileName(parts);
    WrittenIsFileName(other);
    SplitReadsVersion(parts.prefix, parts.marker, parts.version);
    SplitReadsVersion(other.prefix, other.marker, other.version);
    MarkerBytes(parts.marker);
    MarkerBytes(other.marker);
    var stem := StemOf(parts);
    assert parts.marker == stem[|parts.prefix|..][..2];
    assert other.marker == stem[|parts.prefix|..][..2];
  }

  /** The round trip: a trimmed base that is not itself versioned, any marker, any version in range
      and any extension give back their keys and the version. */
  lemma VersionRoundTrip(
    base: Bytes, marker: Bytes, version: nat, extension: Bytes,
    trim: Bytes -> Bytes, normalized: Bytes -> Bytes)
    requires base != [] && SLASH !in base && trim(base) == base && SplitStem(base).None?
    requires IsMarker(marker) && 1 <= version <= MAX_VERSION
    requires DOT !in extension && SLASH !in extension
    requires 1 <= |normalized(base)| <= MAX_BASE_BYTES
    requires |normalized(extension)| <= MAX_EXTENSION_BYTES
    ensures Parse(base + marker + Decimal(version) + ([DOT] + extension), trim, normalized)
            == Some(VersionName(normalized(base), normalized(extension), version))
  {
    hide IsMarker, SplitStem, Parse;
    ReadsWhatIsWritten(Parts(base, marker, version, Some(extension)), trim, normalized);
  }

  /** A base that is itself versioned is refused, whatever surrounds it. */
  lemma VersionedBaseIsRefused(parts: Parts, inner: Bytes, marker: Bytes, version: nat,
                               trim: Bytes -> Bytes, normalized: Bytes -> Bytes)
    requires Writable(parts) && IsMarker(marker) && 1 <= version <= MAX_VERSION
    requires trim(parts.prefix) == inner + marker + Decimal(version)
    ensures Parse(Written(parts), trim, normalized).None?
  {
    hide IsMarker, SplitStem, Parse, Writable, Written;
    ReadsWhatIsWritten(parts, trim, normalized);
    SplitReadsVersion(inner, marker, version);
  }

  /** The eight markers: one of `-`, `_`, a space and `.`, and then `v` or `V`. */
  lemma MarkersAre(marker: Bytes)
    ensures IsMarker(marker)
            <==> |marker| == 2 && marker[0] in {0x2D, 0x5F, 0x20, 0x2E} && marker[1] in {0x76, 0x56}
  {
    if |marker| == 2 {
      assert marker == [marker[0], marker[1]];
    }
  }

  /** A stem that ends in a marker and a version. */
  ghost predicate IsVersioned(stem: Bytes) {
    exists inner: Bytes, marker: Bytes, version: nat ::
      IsMarker(marker) && 1 <= version <= 999_999 && stem == inner + marker + Decimal(version)
  }

  lemma SplitIffVersioned(stem: Bytes)
    ensures SplitStem(stem).Some? <==> IsVersioned(stem)
  {
    hide SplitStem, IsMarker, Decimal;
    if SplitStem(stem).Some? {
      var marker := SplitIsVersion(stem);
      var (inner, version) := SplitStem(stem).value;
      assert stem == inner + marker + Decimal(version) && IsVersioned(stem);
    }
    if inner: Bytes, marker: Bytes, version: nat :|
       IsMarker(marker) && 1 <= version <= 999_999 && stem == inner + marker + Decimal(version)
    {
      SplitReadsVersion(inner, marker, version);
    }
  }

  /** What a name written from these parts comes to. */
  ghost predicate ComesTo(
    parts: Parts, trim: Bytes -> Bytes, normalized: Bytes -> Bytes, result: VersionName)
  {
    var base := trim(parts.prefix);
    && base != [] && !IsVersioned(base)
    && result.baseKey == normalized(base) && 1 <= |result.baseKey| <= 1_024
    && result.extensionKey == normalized(if parts.extension.None? then [] else parts.extension.value)
    && |result.extensionKey| <= 64
    && result.version == parts.version
  }

  /** A name is accepted exactly when it is written from parts whose base is something and not itself
      versioned, and whose keys are not too long; the result is those keys and the version. */
  lemma AcceptedIffComesTo(
    name: Bytes, trim: Bytes -> Bytes, normalized: Bytes -> Bytes, result: VersionName)
    ensures Parse(name, trim, normalized) == Some(result)
            <==> exists parts :: Writable(parts) && Written(parts) == name
                   && ComesTo(parts, trim, normalized, result)
  {
    hide Parse, Writable, Written, SplitStem, IsVersioned;
    AcceptedIffWritten(name, trim, normalized, result);
    forall parts: Parts
      ensures ComesTo(parts, trim, normalized, result)
              <==> Keyed(trim(parts.prefix), parts.extension, parts.version, normalized)
                   == Some(result)
    {
      SplitIffVersioned(trim(parts.prefix));
    }
  }
}
