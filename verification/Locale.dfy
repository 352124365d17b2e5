/**
 `parseBrowserLocale` and what is built on it: language tags in the syntax of section 2.1 of
 RFC 5646, without extended language subtags and grandfathered tags. The parser consumes subtags
 greedily; the grammar says which partitions of the subtags there are.
 */
module Locale {
  import opened Wrappers

  predicate IsLetter(c: char) {
    'a' <= c <= 'z'
  }

  predicate IsDigit(c: char) {
    '0' <= c <= '9'
  }

  predicate AllLetters(s: string) {
    forall k :: 0 <= k < |s| ==> IsLetter(s[k])
  }

  predicate AllDigits(s: string) {
    forall k :: 0 <= k < |s| ==> IsDigit(s[k])
  }

  predicate AllAlphanumeric(s: string) {
    forall k :: 0 <= k < |s| ==> IsLetter(s[k]) || IsDigit(s[k])
  }

  // The classes of subtags, in lower case.

  predicate IsLanguage(s: string) {
    2 <= |s| <= 8 && AllLetters(s)
  }

  predicate IsScript(s: string) {
    |s| == 4 && AllLetters(s)
  }

  predicate IsRegion(s: string) {
    (|s| == 2 && AllLetters(s)) || (|s| == 3 && AllDigits(s))
  }

  predicate IsVariant(s: string) {
    AllAlphanumeric(s) && (5 <= |s| <= 8 || (|s| == 4 && IsDigit(s[0])))
  }

  predicate IsSingleton(s: string) {
    |s| == 1 && AllAlphanumeric(s) && s != "x"
  }

  predicate IsExtensionPart(s: string) {
    2 <= |s| <= 8 && AllAlphanumeric(s)
  }

  predicate IsPrivatePart(s: string) {
    1 <= |s| <= 8 && AllAlphanumeric(s)
  }

  datatype Extension = Extension(singleton: string, parts: seq<string>)

  /** A partition of subtags into the parts of a language tag. */
  datatype Tag = Tag(
    language: string, script: Option<string>, region: Option<string>, variants: seq<string>,
    extensions: seq<Extension>, privateUse: seq<string>)

  predicate All(parts: seq<string>, kind: string -> bool) {
    forall k :: 0 <= k < |parts| ==> kind(parts[k])
  }

  /** The grammar: every part in its kind, extensions not empty and with distinct singletons. */
  predicate WellFormed(tag: Tag) {
    && IsLanguage(tag.language)
    && (tag.script.Some? ==> IsScript(tag.script.value))
    && (tag.region.Some? ==> IsRegion(tag.region.value))
    && All(tag.variants, IsVariant)
    && WellFormedExtensions(tag.extensions, {})
    && All(tag.privateUse, IsPrivatePart)
  }

  predicate WellFormedExtensions(extensions: seq<Extension>, seen: set<string>) {
    extensions == []
    || (&& IsSingleton(extensions[0].singleton) && extensions[0].singleton !in seen
        && extensions[0].parts != [] && All(extensions[0].parts, IsExtensionPart)
        && WellFormedExtensions(extensions[1..], seen + {extensions[0].singleton}))
  }

  function Optional(part: Option<string>): seq<string> {
    if part.None? then [] else [part.value]
  }

  function ExtensionParts(extensions: seq<Extension>): seq<string> {
    if extensions == [] then []
    else [extensions[0].singleton] + extensions[0].parts + ExtensionParts(extensions[1..])
  }

  function PrivateParts(privateUse: seq<string>): seq<string> {
    if privateUse == [] then [] else ["x"] + privateUse
  }

  /** The subtags of a tag, in order. */
  function Subtags(tag: Tag): (parts: seq<string>)
    ensures parts != []
  {
    [tag.language]
    + (Optional(tag.script)
       + (Optional(tag.region)
          + (tag.variants + (ExtensionParts(tag.extensions) + PrivateParts(tag.privateUse)))))
  }

  /** How many subtags at the front are in a class. */
  function Leading(parts: seq<string>, kind: string -> bool): (n: nat)
    ensures n <= |parts| && All(parts[..n], kind)
    ensures n < |parts| ==> !kind(parts[n])
  {
    if parts == [] || !kind(parts[0]) then 0
    else
      var n := Leading(parts[1..], kind);
      assert parts[..n + 1] == [parts[0]] + parts[1..][..n];
      n + 1
  }

  /** The extensions at the front, and the subtags after them. */
  function ScanExtensions(parts: seq<string>, seen: set<string>)
    : (result: Option<(seq<Extension>, seq<string>)>)
    ensures result.Some? ==> |result.value.1| <= |parts|
    decreases |parts|
  {
    if parts == [] || !IsSingleton(parts[0]) then Some(([], parts))
    else if parts[0] in seen then None
    else
      var n := Leading(parts[1..], IsExtensionPart);
      if n == 0 then None
      else
        var rest := ScanExtensions(parts[1 + n..], seen + {parts[0]});
        if rest.None? then None
        else Some(([Extension(parts[0], parts[1..1 + n])] + rest.value.0, rest.value.1))
  }

  /** The private-use subtags, which must be all that is left. */
  function ScanPrivate(parts: seq<string>): Option<seq<string>> {
    if parts == [] then Some([])
    else if parts[0] != "x" then None
    else if |parts| == 1 || Leading(parts[1..], IsPrivatePart) != |parts| - 1 then None
    else Some(parts[1..])
  }

  function ScanOne(parts: seq<string>, kind: string -> bool): Option<string> {
    if parts != [] && kind(parts[0]) then Some(parts[0]) else None
  }

  function After(parts: seq<string>, part: Option<string>): seq<string>
    requires part.Some? ==> parts != []
  {
    if part.None? then parts else parts[1..]
  }

  /** Extensions and private use, up to the end. */
  function ScanEnd(parts: seq<string>): Option<(seq<Extension>, seq<string>)> {
    var extensions := ScanExtensions(parts, {});
    if extensions.None? then None
    else
      var privateUse := ScanPrivate(extensions.value.1);
      if privateUse.None? then None else Some((extensions.value.0, privateUse.value))
  }

  /** Greedy consumption of the subtags. */
  function Scan(parts: seq<string>): Option<Tag> {
    if parts == [] || !IsLanguage(parts[0]) then None
    else
      var script := ScanOne(parts[1..], IsScript);
      var afterScript := After(parts[1..], script);
      var region := ScanOne(afterScript, IsRegion);
      var afterRegion := After(afterScript, region);
      var n := Leading(afterRegion, IsVariant);
      var end := ScanEnd(afterRegion[n..]);
      if end.None? then None
      else Some(Tag(parts[0], script, region, afterRegion[..n], end.value.0, end.value.1))
  }

  lemma {:induction false} LeadingIs(a: seq<string>, b: seq<string>, kind: string -> bool)
    requires All(a, kind) && (b != [] ==> !kind(b[0]))
    ensures Leading(a + b, kind) == |a|
    decreases |a|
  {
    if a == [] {
      assert a + b == b;
    } else {
      assert (a + b)[0] == a[0] && (a + b)[1..] == a[1..] + b;
      LeadingIs(a[1..], b, kind);
    }
  }

  lemma ExtensionsStart(extensions: seq<Extension>, rest: seq<string>)
    requires forall k :: 0 <= k < |extensions| ==> IsSingleton(extensions[k].singleton)
    requires rest != [] ==> |rest[0]| == 1
    ensures var parts := ExtensionParts(extensions) + rest;
            parts != [] ==> |parts[0]| == 1 && !IsExtensionPart(parts[0])
  {
  }

  lemma FirstExtension(extensions: seq<Extension>, rest: seq<string>)
    requires extensions != []
    ensures var first := extensions[0];
            ExtensionParts(extensions) + rest
            == [first.singleton] + (first.parts + (ExtensionParts(extensions[1..]) + rest))
  {
    var first := extensions[0];
    Regroup([first.singleton], first.parts, ExtensionParts(extensions[1..]), rest);
  }

  lemma Regroup(a: seq<string>, b: seq<string>, c: seq<string>, d: seq<string>)
    ensures a + b + c + d == a + (b + (c + d))
  {
  }

  lemma ScanFirst(first: Extension, more: seq<string>, seen: set<string>)
    requires IsSingleton(first.singleton) && first.singleton !in seen
    requires first.parts != [] && All(first.parts, IsExtensionPart)
    requires more != [] ==> !IsExtensionPart(more[0])
    ensures ScanExtensions([first.singleton] + (first.parts + more), seen)
            == var rest := ScanExtensions(more, seen + {first.singleton});
               if rest.None? then None else Some(([first] + rest.value.0, rest.value.1))
  {
    hide ScanExtensions, Leading, IsSingleton, IsExtensionPart, All;
    SlicesOf(first.singleton, first.parts, more);
    LeadingIs(first.parts, more, IsExtensionPart);
    ScanStep([first.singleton] + (first.parts + more), |first.parts|, seen);
  }

  lemma ScanStep(parts: seq<string>, n: nat, seen: set<string>)
    requires parts != [] && IsSingleton(parts[0]) && parts[0] !in seen
    requires n > 0 && n == Leading(parts[1..], IsExtensionPart)
    ensures 1 + n <= |parts|
    ensures ScanExtensions(parts, seen)
            == var rest := ScanExtensions(parts[1 + n..], seen + {parts[0]});
               if rest.None? then None
               else Some(([Extension(parts[0], parts[1..1 + n])] + rest.value.0, rest.value.1))
  {
    hide Leading, IsSingleton, IsExtensionPart;
  }

  lemma SlicesOf(head: string, middle: seq<string>, rest: seq<string>)
    ensures var parts := [head] + (middle + rest);
            && parts[0] == head && parts[1..] == middle + rest
            && parts[1..1 + |middle|] == middle && parts[1 + |middle|..] == rest
  {
  }

  lemma SingletonsAre(extensions: seq<Extension>, seen: set<string>)
    requires WellFormedExtensions(extensions, seen)
    ensures forall k :: 0 <= k < |extensions| ==> IsSingleton(extensions[k].singleton)
  {
  }

  lemma {:induction false} ExtensionsRoundTrip(
    extensions: seq<Extension>, rest: seq<string>, seen: set<string>)
    requires WellFormedExtensions(extensions, seen)
    requires rest != [] ==> |rest[0]| == 1 && !IsSingleton(rest[0])
    ensures ScanExtensions(ExtensionParts(extensions) + rest, seen) == Some((extensions, rest))
    decreases |extensions|
  {
    hide Leading, IsSingleton, IsExtensionPart, All;
    if extensions == [] {
      assert [] + rest == rest;
    } else {
      var first, tail := extensions[0], extensions[1..];
      var more := ExtensionParts(tail) + rest;
      ExtensionsRoundTrip(tail, rest, seen + {first.singleton});
      FirstExtension(extensions, rest);
      SingletonsAre(tail, seen + {first.singleton});
      ExtensionsStart(tail, rest);
      ScanFirst(first, more, seen);
      assert [first] + tail == extensions;
    }
  }

  lemma PrivateRoundTrip(privateUse: seq<string>)
    requires All(privateUse, IsPrivatePart)
    ensures ScanPrivate(PrivateParts(privateUse)) == Some(privateUse)
  {
    if privateUse != [] {
      var parts := PrivateParts(privateUse);
      assert parts[1..] == privateUse;
      LeadingIs(privateUse, [], IsPrivatePart);
      assert privateUse + [] == privateUse;
    }
  }

  /** Completeness: greedy consumption finds every well-formed partition. */
  lemma ScanFindsPartition(tag: Tag)
    requires WellFormed(tag)
    ensures Scan(Subtags(tag)) == Some(tag)
  {
    hide Leading, ScanEnd, IsScript, IsRegion, IsVariant, All, WellFormedExtensions,
         ExtensionParts, PrivateParts;
    var end := ExtensionParts(tag.extensions) + PrivateParts(tag.privateUse);
    var afterRegion := tag.variants + end;
    var afterScript := Optional(tag.region) + afterRegion;
    var parts := Subtags(tag);
    EndStarts(tag.extensions, tag.privateUse);
    VariantsStart(tag.variants, end);
    RegionStarts(tag.region, afterRegion);
    assert parts[1..] == Optional(tag.script) + afterScript;
    OptionalRoundTrip(tag.script, afterScript, IsScript);
    OptionalRoundTrip(tag.region, afterRegion, IsRegion);
    NotVariant(end);
    LeadingIs(tag.variants, end, IsVariant);
    assert afterRegion[..|tag.variants|] == tag.variants && afterRegion[|tag.variants|..] == end;
    EndRoundTrip(tag.extensions, tag.privateUse);
  }

  lemma EndRoundTrip(extensions: seq<Extension>, privateUse: seq<string>)
    requires WellFormedExtensions(extensions, {}) && All(privateUse, IsPrivatePart)
    ensures ScanEnd(ExtensionParts(extensions) + PrivateParts(privateUse))
            == Some((extensions, privateUse))
  {
    hide ScanExtensions, ScanPrivate, WellFormedExtensions, ExtensionParts, PrivateParts;
    PrivateStarts(privateUse);
    ExtensionsRoundTrip(extensions, PrivateParts(privateUse), {});
    PrivateRoundTrip(privateUse);
  }

  lemma OptionalRoundTrip(part: Option<string>, rest: seq<string>, kind: string -> bool)
    requires part.Some? ==> kind(part.value)
    requires part.None? && rest != [] ==> !kind(rest[0])
    ensures ScanOne(Optional(part) + rest, kind) == part
    ensures After(Optional(part) + rest, part) == rest
  {
    if part.None? {
      assert [] + rest == rest;
    }
  }

  lemma PrivateStarts(privateUse: seq<string>)
    ensures var rest := PrivateParts(privateUse);
            rest != [] ==> |rest[0]| == 1 && !IsSingleton(rest[0])
  {
  }

  /** Extensions and private use start with a subtag of one character. */
  lemma EndStarts(extensions: seq<Extension>, privateUse: seq<string>)
    requires WellFormedExtensions(extensions, {})
    ensures var end := ExtensionParts(extensions) + PrivateParts(privateUse);
            end != [] ==> |end[0]| == 1
  {
  }

  lemma NotVariant(end: seq<string>)
    requires end != [] ==> |end[0]| == 1
    ensures end != [] ==> !IsVariant(end[0])
  {
  }

  lemma VariantsStart(variants: seq<string>, end: seq<string>)
    requires All(variants, IsVariant) && (end != [] ==> |end[0]| == 1)
    ensures var rest := variants + end;
            rest != [] ==> !IsScript(rest[0]) && !IsRegion(rest[0])
  {
    if variants != [] {
      assert IsVariant(variants[0]);
    }
  }

  lemma RegionStarts(region: Option<string>, rest: seq<string>)
    requires region.Some? ==> IsRegion(region.value)
    requires rest != [] ==> !IsScript(rest[0])
    ensures var parts := Optional(region) + rest;
            parts != [] ==> !IsScript(parts[0])
  {
  }

  lemma {:induction false} ExtensionsSound(parts: seq<string>, seen: set<string>)
    requires ScanExtensions(parts, seen).Some?
    ensures var (extensions, rest) := ScanExtensions(parts, seen).value;
            WellFormedExtensions(extensions, seen) && parts == ExtensionParts(extensions) + rest
    decreases |parts|
  {
    hide Leading, IsSingleton, IsExtensionPart, All;
    if parts != [] && IsSingleton(parts[0]) {
      var n := Leading(parts[1..], IsExtensionPart);
      var first, more := Extension(parts[0], parts[1..1 + n]), parts[1 + n..];
      ExtensionsSound(more, seen + {first.singleton});
      var (extensions, rest) := ScanExtensions(more, seen + {first.singleton}).value;
      assert first.parts == parts[1..][..n];
      ConsExtension(first, extensions, rest, seen);
      SplitAt(parts[1..], n);
      SplitAt(parts, 1);
    } else {
      assert [] + parts == parts;
    }
  }

  lemma ConsExtension(first: Extension, tail: seq<Extension>, rest: seq<string>, seen: set<string>)
    requires IsSingleton(first.singleton) && first.singleton !in seen
    requires first.parts != [] && All(first.parts, IsExtensionPart)
    requires WellFormedExtensions(tail, seen + {first.singleton})
    ensures WellFormedExtensions([first] + tail, seen)
    ensures ExtensionParts([first] + tail) + rest
            == [first.singleton] + (first.parts + (ExtensionParts(tail) + rest))
  {
    hide IsSingleton, IsExtensionPart, All;
    assert ([first] + tail)[1..] == tail;
    FirstExtension([first] + tail, rest);
  }

  /** Soundness: what greedy consumption finds is a well-formed partition of the subtags. */
  lemma ScanIsPartition(parts: seq<string>)
    requires Scan(parts).Some?
    ensures WellFormed(Scan(parts).value) && Subtags(Scan(parts).value) == parts
  {
    hide Scan, WellFormed, Subtags;
    ScanIsWellFormed(parts);
    ScanKeepsSubtags(parts);
  }

  lemma ScanIsWellFormed(parts: seq<string>)
    requires Scan(parts).Some?
    ensures WellFormed(Scan(parts).value)
  {
    hide IsScript, IsRegion, IsVariant, IsLanguage, ScanEnd, WellFormedExtensions, Leading, All;
    var tag := Scan(parts).value;
    EndSound(After(After(parts[1..], tag.script), tag.region)[|tag.variants|..]);
  }

  lemma ScanKeepsSubtags(parts: seq<string>)
    requires Scan(parts).Some?
    ensures Subtags(Scan(parts).value) == parts
  {
    hide IsScript, IsRegion, IsVariant, IsLanguage, ScanEnd, ExtensionParts, PrivateParts, Leading,
         Optional, Subtags;
    var tag := Scan(parts).value;
    var afterScript := After(parts[1..], tag.script);
    var afterRegion := After(afterScript, tag.region);
    var n := |tag.variants|;
    EndSound(afterRegion[n..]);
    SplitAt(afterRegion, n);
    OneThenRest(afterScript, IsRegion);
    OneThenRest(parts[1..], IsScript);
    SplitAt(parts, 1);
    Assembled(parts, tag, afterScript, afterRegion, afterRegion[n..]);
  }

  lemma Assembled(
    parts: seq<string>, tag: Tag, afterScript: seq<string>, afterRegion: seq<string>,
    end: seq<string>)
    requires parts != [] && parts[0] == tag.language
    requires parts[1..] == Optional(tag.script) + afterScript
    requires afterScript == Optional(tag.region) + afterRegion
    requires afterRegion == tag.variants + end
    requires end == ExtensionParts(tag.extensions) + PrivateParts(tag.privateUse)
    ensures Subtags(tag) == parts
  {
    hide Optional, ExtensionParts, PrivateParts;
    SplitAt(parts, 1);
  }

  lemma SplitAt(parts: seq<string>, n: nat)
    requires n <= |parts|
    ensures parts == parts[..n] + parts[n..]
  {
  }

  lemma OneThenRest(parts: seq<string>, kind: string -> bool)
    ensures var one := ScanOne(parts, kind);
            parts == Optional(one) + After(parts, one)
  {
    if parts != [] {
      SplitAt(parts, 1);
    }
  }

  lemma EndSound(parts: seq<string>)
    requires ScanEnd(parts).Some?
    ensures var (extensions, privateUse) := ScanEnd(parts).value;
            && WellFormedExtensions(extensions, {}) && All(privateUse, IsPrivatePart)
            && ExtensionParts(extensions) + PrivateParts(privateUse) == parts
  {
    hide ScanExtensions, ScanPrivate, WellFormedExtensions, ExtensionParts, PrivateParts;
    ExtensionsSound(parts, {});
    PrivateSound(ScanExtensions(parts, {}).value.1);
  }

  lemma PrivateSound(parts: seq<string>)
    requires ScanPrivate(parts).Some?
    ensures var privateUse := ScanPrivate(parts).value;
            All(privateUse, IsPrivatePart) && PrivateParts(privateUse) == parts
  {
    if parts != [] {
      assert parts[1..][..|parts| - 1] == parts[1..];
      assert parts == ["x"] + parts[1..];
    }
  }

  /** The subtags are accepted exactly when they can be partitioned by the grammar, and then there is
      one partition only, the one that is found. */
  lemma AcceptedIffPartition(parts: seq<string>)
    ensures Scan(parts).Some? <==> exists tag :: WellFormed(tag) && Subtags(tag) == parts
    ensures forall tag :: WellFormed(tag) && Subtags(tag) == parts ==> Scan(parts) == Some(tag)
  {
    hide Scan, WellFormed, Subtags;
    if Scan(parts).Some? {
      ScanIsPartition(parts);
    }
    forall tag | WellFormed(tag) && Subtags(tag) == parts ensures Scan(parts) == Some(tag) {
      ScanFindsPartition(tag);
    }
  }

  datatype ParsedLocale = ParsedLocale(
    language: string, script: Option<string>, region: Option<string>, hasVariant: bool)

  /** What the parser reports of a partition. */
  function Report(tag: Option<Tag>): Option<ParsedLocale> {
    if tag.None? then None
    else Some(ParsedLocale(tag.value.language, tag.value.script, tag.value.region,
                           tag.value.variants != []))
  }

  /** The loop over the subtags of a tag in lower case whose shape has been checked. */
  method ParseSubtags(parts: seq<string>) returns (parsed: Option<ParsedLocale>)
    requires parts != [] && IsLanguage(parts[0])
    ensures parsed == Report(Scan(parts))
  {
    hide Leading, ScanEnd, IsScript, IsRegion, IsVariant, IsLanguage;
    var index := 1;
    var script: Option<string>, region: Option<string>, hasVariant := None, None, false;
    if index < |parts| && IsScript(parts[index]) {
      script, index := Some(parts[index]), index + 1;
    }
    ghost var afterScript := After(parts[1..], script);
    assert parts[index..] == afterScript && script == ScanOne(parts[1..], IsScript);
    if index < |parts| && IsRegion(parts[index]) {
      region, index := Some(parts[index]), index + 1;
    }
    ghost var afterRegion := After(afterScript, region);
    assert parts[index..] == afterRegion && region == ScanOne(afterScript, IsRegion);
    var afterVariants := SkipWhile(parts, index, IsVariant);
    hasVariant, index := afterVariants > index, afterVariants;
    ghost var n := Leading(afterRegion, IsVariant);
    assert parts[index..] == afterRegion[n..];
    var ended := SkipEnd(parts, index);
    return if ended then Some(ParsedLocale(parts[0], script, region, hasVariant)) else None;
  }

  /** Extensions and private use. */
  method SkipEnd(parts: seq<string>, from: nat) returns (ended: bool)
    requires from <= |parts|
    ensures ended <==> ScanEnd(parts[from..]).Some?
  {
    hide Leading, ScanExtensions, ScanPrivate, IsPrivatePart;
    var afterExtensions := SkipExtensions(parts, from);
    if afterExtensions.None? {
      return false;
    }
    var index := afterExtensions.value;
    ghost var rest := parts[index..];
    PrivateCases(rest);
    if index < |parts| && parts[index] == "x" {
      index := index + 1;
      assert parts[index..] == rest[1..];
      var end := SkipWhile(parts, index, IsPrivatePart);
      if end == index {
        return false;
      }
      index := end;
    }
    return index == |parts|;
  }

  lemma PrivateCases(parts: seq<string>)
    ensures ScanPrivate(parts).Some?
            <==> parts == []
                 || (parts[0] == "x" && Leading(parts[1..], IsPrivatePart) == |parts| - 1
                     && |parts| > 1)
  {
  }

  method SkipWhile(parts: seq<string>, from: nat, kind: string -> bool) returns (index: nat)
    requires from <= |parts|
    ensures from <= index <= |parts| && index == from + Leading(parts[from..], kind)
  {
    index := from;
    while index < |parts| && kind(parts[index])
      invariant from <= index <= |parts|
      invariant from + Leading(parts[from..], kind) == index + Leading(parts[index..], kind)
    {
      assert parts[index..][1..] == parts[index + 1..];
      index := index + 1;
    }
  }

  /** What is left after the extensions. */
  ghost function AfterExtensions(parts: seq<string>, seen: set<string>): Option<seq<string>> {
    var scanned := ScanExtensions(parts, seen);
    if scanned.None? then None else Some(scanned.value.1)
  }

  lemma OverExtension(parts: seq<string>, index: nat, n: nat, seen: set<string>)
    requires index < |parts| && IsSingleton(parts[index]) && parts[index] !in seen
    requires n == Leading(parts[index + 1..], IsExtensionPart) && n > 0
    ensures AfterExtensions(parts[index..], seen)
            == AfterExtensions(parts[index + 1 + n..], seen + {parts[index]})
  {
    hide Leading, IsExtensionPart, IsSingleton;
    assert parts[index..][1..] == parts[index + 1..];
    assert parts[index..][1 + n..] == parts[index + 1 + n..];
  }

  /** The extension loop, with the set of singletons it has met. */
  method SkipExtensions(parts: seq<string>, from: nat) returns (end: Option<nat>)
    requires from <= |parts|
    ensures var after := AfterExtensions(parts[from..], {});
            if end.None? then after.None?
            else end.value <= |parts| && after == Some(parts[end.value..])
  {
    hide Leading, IsExtensionPart, IsSingleton;
    var index, singletons: set<string> := from, {};
    while index < |parts| && IsSingleton(parts[index])
      invariant from <= index <= |parts|
      invariant AfterExtensions(parts[from..], {}) == AfterExtensions(parts[index..], singletons)
      decreases |parts| - index
    {
      hide AfterExtensions;
      var singleton := parts[index];
      if singleton in singletons {
        BadExtension(parts[index..], singletons);
        return None;
      }
      var next := SkipWhile(parts, index + 1, IsExtensionPart);
      if next == index + 1 {
        BadExtension(parts[index..], singletons);
        return None;
      }
      OverExtension(parts, index, next - index - 1, singletons);
      singletons, index := singletons + {singleton}, next;
    }
    return Some(index);
  }

  lemma BadExtension(parts: seq<string>, seen: set<string>)
    requires parts != [] && IsSingleton(parts[0])
    requires parts[0] in seen || Leading(parts[1..], IsExtensionPart) == 0
    ensures AfterExtensions(parts, seen).None?
  {
  }

  // Whole tags and what they select.

  function Lower(c: char): char {
    if 'A' <= c <= 'Z' then (c as int + 32) as char else c
  }

  function LowerAll(s: string): (t: string)
    ensures |t| == |s| && forall k :: 0 <= k < |s| ==> t[k] == Lower(s[k])
  {
    seq(|s|, k requires 0 <= k < |s| => Lower(s[k]))
  }

  /** `split('-')`. */
  function Split(s: string): (parts: seq<string>)
    ensures parts != []
  {
    if s == [] then [[]]
    else
      var rest := Split(s[1..]);
      if s[0] == '-' then [[]] + rest else [[s[0]] + rest[0]] + rest[1..]
  }

  function Join(parts: seq<string>): string
    requires parts != []
  {
    if |parts| == 1 then parts[0] else parts[0] + "-" + Join(parts[1..])
  }

  lemma SplitJoins(s: string)
    ensures Join(Split(s)) == s
    ensures NoHyphens(Split(s))
  {
    hide Join, Split, NoHyphens;
    JoinOfSplit(s);
    SplitHasNoHyphens(s);
  }

  lemma {:induction false} JoinOfSplit(s: string)
    ensures Join(Split(s)) == s
    decreases |s|
  {
    if s != [] {
      hide Join, Split;
      var rest := Split(s[1..]);
      JoinOfSplit(s[1..]);
      SplitStep(s);
      assert s == [s[0]] + s[1..];
      if s[0] == '-' {
        HyphenJoin(rest);
      } else {
        PrependJoin(s[0], rest);
      }
    }
  }

  lemma {:induction false} SplitHasNoHyphens(s: string)
    ensures NoHyphens(Split(s))
    decreases |s|
  {
    if s != [] {
      hide Split, NoHyphens;
      SplitHasNoHyphens(s[1..]);
      SplitStep(s);
      StepHasNoHyphens(s[0], Split(s[1..]));
    }
  }

  lemma SplitStep(s: string)
    requires s != []
    ensures var rest := Split(s[1..]);
            Split(s) == if s[0] == '-' then [[]] + rest else [[s[0]] + rest[0]] + rest[1..]
  {
  }

  lemma StepHasNoHyphens(c: char, rest: seq<string>)
    requires rest != [] && NoHyphens(rest)
    ensures if c == '-' then NoHyphens([[]] + rest) else NoHyphens([[c] + rest[0]] + rest[1..])
  {
  }

  lemma HyphenJoin(parts: seq<string>)
    requires parts != []
    ensures Join([[]] + parts) == ['-'] + Join(parts)
  {
    assert ([[]] + parts)[1..] == parts;
    assert [] + "-" + Join(parts) == ['-'] + Join(parts);
  }

  lemma PrependJoin(c: char, parts: seq<string>)
    requires parts != []
    ensures Join([[c] + parts[0]] + parts[1..]) == [c] + Join(parts)
  {
    var first := [c] + parts[0];
    if |parts| > 1 {
      assert ([first] + parts[1..])[1..] == parts[1..];
      assert first + "-" + Join(parts[1..]) == [c] + (parts[0] + "-" + Join(parts[1..]));
    } else {
      assert [first] + parts[1..] == [first];
    }
  }

  /** The shape test: a language of letters, then alphanumeric subtags of one to eight characters. */
  predicate WellShaped(tag: string) {
    && 0 < |tag| <= 255
    && var parts := Split(LowerAll(tag));
       IsLanguage(parts[0]) && All(parts[1..], IsPrivatePart)
  }

  /** What the parser makes of a tag. */
  function Parsed(tag: string): Option<ParsedLocale> {
    if WellShaped(tag) then Report(Scan(Split(LowerAll(tag)))) else None
  }

  method ParseBrowserLocale(tag: string) returns (parsed: Option<ParsedLocale>)
    ensures parsed == Parsed(tag)
  {
    if !WellShaped(tag) {
      return None;
    }
    parsed := ParseSubtags(Split(LowerAll(tag)));
  }

  predicate NoHyphens(parts: seq<string>) {
    forall k :: 0 <= k < |parts| ==> '-' !in parts[k]
  }

  lemma {:induction false} JoinSplits(parts: seq<string>)
    requires parts != [] && NoHyphens(parts)
    ensures Split(Join(parts)) == parts
    decreases |parts|
  {
    if |parts| == 1 {
      SplitWhole(parts[0]);
      assert parts == [parts[0]];
    } else {
      JoinSplits(parts[1..]);
      SplitAtHyphen(parts[0], Join(parts[1..]));
      assert parts == [parts[0]] + parts[1..];
    }
  }

  lemma {:induction false} SplitWhole(s: string)
    requires '-' !in s
    ensures Split(s) == [s]
    decreases |s|
  {
    if s != [] {
      SplitWhole(s[1..]);
      assert [s[1..]][1..] == [] && [s[0]] + s[1..] == s;
    }
  }

  lemma {:induction false} SplitAtHyphen(first: string, rest: string)
    requires '-' !in first
    ensures Split(first + "-" + rest) == [first] + Split(rest)
    decreases |first|
  {
    var s := first + "-" + rest;
    if first == [] {
      assert s == ['-'] + rest && s[1..] == rest;
    } else {
      assert s[1..] == first[1..] + "-" + rest;
      SplitAtHyphen(first[1..], rest);
      var parts := Split(rest);
      assert [first[0]] + first[1..] == first;
      assert ([first[1..]] + parts)[1..] == parts;
    }
  }

  lemma {:induction false} ExtensionsAreParts(extensions: seq<Extension>, seen: set<string>)
    requires WellFormedExtensions(extensions, seen)
    ensures All(ExtensionParts(extensions), IsPrivatePart)
    decreases |extensions|
  {
    if extensions != [] {
      var first := extensions[0];
      ExtensionsAreParts(extensions[1..], seen + {first.singleton});
      assert All(first.parts, IsPrivatePart) by {
        assert forall part :: IsExtensionPart(part) ==> IsPrivatePart(part);
      }
      hide IsExtensionPart;
      AllConcat([first.singleton], first.parts, IsPrivatePart);
      AllConcat([first.singleton] + first.parts, ExtensionParts(extensions[1..]), IsPrivatePart);
    }
  }

  lemma AllConcat(a: seq<string>, b: seq<string>, kind: string -> bool)
    requires All(a, kind) && All(b, kind)
    ensures All(a + b, kind)
  {
  }

  lemma KindsAreParts(tag: Tag)
    requires WellFormed(tag)
    ensures IsPrivatePart(tag.language)
    ensures All(Optional(tag.script), IsPrivatePart) && All(Optional(tag.region), IsPrivatePart)
    ensures All(tag.variants, IsPrivatePart) && All(PrivateParts(tag.privateUse), IsPrivatePart)
  {
    hide WellFormedExtensions;
    assert forall part :: IsVariant(part) ==> IsPrivatePart(part);
    assert IsPrivatePart("x");
  }

  /** All subtags of a well-formed tag have the shape that is tested for. */
  lemma SubtagsAreParts(tag: Tag)
    requires WellFormed(tag)
    ensures All(Subtags(tag), IsPrivatePart)
  {
    KindsAreParts(tag);
    ExtensionsAreParts(tag.extensions, {});
    hide IsPrivatePart, WellFormed, Optional, PrivateParts, All;
    var end := ExtensionParts(tag.extensions) + PrivateParts(tag.privateUse);
    AllConcat(ExtensionParts(tag.extensions), PrivateParts(tag.privateUse), IsPrivatePart);
    AllConcat(tag.variants, end, IsPrivatePart);
    AllConcat(Optional(tag.region), tag.variants + end, IsPrivatePart);
    AllConcat(Optional(tag.script), Optional(tag.region) + (tag.variants + end), IsPrivatePart);
    AllOne(tag.language, IsPrivatePart);
    AllConcat([tag.language],
              Optional(tag.script) + (Optional(tag.region) + (tag.variants + end)),
              IsPrivatePart);
  }

  lemma AllOne(part: string, kind: string -> bool)
    requires kind(part)
    ensures All([part], kind)
  {
  }

  lemma PartsHaveNoHyphens(parts: seq<string>)
    requires All(parts, IsPrivatePart)
    ensures NoHyphens(parts)
  {
  }

  /** A tag that is written from a well-formed partition, in whatever case, is parsed to it. */
  lemma ParsesWhatIsWritten(text: string, tag: Tag)
    requires |text| <= 255 && WellFormed(tag) && LowerAll(text) == Join(Subtags(tag))
    ensures Parsed(text) == Report(Some(tag))
  {
    var parts := Subtags(tag);
    SubtagsAreParts(tag);
    PartsHaveNoHyphens(parts);
    JoinSplits(parts);
    ScanFindsPartition(tag);
    assert parts[0] == tag.language && IsLanguage(parts[0]);
    hide WellFormed, Scan, IsLanguage, IsPrivatePart, Split, Report;
    JoinIsNotEmpty(parts);
  }

  lemma JoinIsNotEmpty(parts: seq<string>)
    requires parts != [] && parts[0] != []
    ensures Join(parts) != []
  {
  }

  /** The parser accepts a string if and only if it has at most 255 characters and is, in lower case, a
      well-formed partition joined with hyphens; that partition is then the only one, and the one that
      is reported. */
  lemma TagAcceptedIff(text: string)
    ensures Parsed(text).Some?
            <==> |text| <= 255
                 && exists tag :: WellFormed(tag) && LowerAll(text) == Join(Subtags(tag))
    ensures forall tag :: |text| <= 255 && WellFormed(tag) && LowerAll(text) == Join(Subtags(tag))
                          ==> Parsed(text) == Report(Some(tag))
  {
    hide WellFormed, Subtags, Scan, Split, Join;
    if Parsed(text).Some? {
      var parts := Split(LowerAll(text));
      SplitJoins(LowerAll(text));
      ScanIsPartition(parts);
      assert WellFormed(Scan(parts).value) && LowerAll(text) == Join(Subtags(Scan(parts).value));
    }
    forall tag | |text| <= 255 && WellFormed(tag) && LowerAll(text) == Join(Subtags(tag))
      ensures Parsed(text) == Report(Some(tag))
    {
      ParsesWhatIsWritten(text, tag);
    }
  }

  datatype Supported = En | ZhTW | ZhCN | Ja

  /** `matchBrowserLocale` on a parsed tag. */
  function Select(parsed: Option<ParsedLocale>): Option<Supported> {
    if parsed.None? then None
    else
      var p := parsed.value;
      if p.language == "en" then Some(En)
      else if p.language == "ja" then Some(Ja)
      else if p.language != "zh" then None
      else if p.script.None? && p.region.None? && !p.hasVariant then Some(ZhTW)
      else
        var simplified := p.script == Some("hans")
                          || p.region in {Some("cn"), Some("sg"), Some("my")};
        var traditional := p.script == Some("hant")
                           || p.region in {Some("tw"), Some("hk"), Some("mo")};
        if simplified == traditional then None else if simplified then Some(ZhCN) else Some(ZhTW)
  }

  function Preferred(tag: string): Option<Supported> {
    Select(Parsed(tag))
  }

  /** `resolveLocale`: the stored locale, else the first preference that selects one, else
      English. */
  method ResolveLocale(stored: Option<Supported>, languages: seq<string>)
    returns (locale: Supported)
    ensures stored.Some? ==> locale == stored.value
    ensures stored.None? ==>
              || (exists k :: 0 <= k < |languages| && Preferred(languages[k]) == Some(locale)
                              && forall j :: 0 <= j < k ==> Preferred(languages[j]).None?)
              || (locale == En && forall j :: 0 <= j < |languages| ==> Preferred(languages[j]).None?)
  {
    hide Parsed, Select;
    if stored.Some? {
      return stored.value;
    }
    for next := 0 to |languages|
      invariant forall j :: 0 <= j < next ==> Preferred(languages[j]).None?
    {
      var parsed := ParseBrowserLocale(languages[next]);
      var matched := Select(parsed);
      if matched.Some? {
        return matched.value;
      }
    }
    return En;
  }

  predicate Simplified(tag: Tag) {
    tag.script == Some("hans") || tag.region in {Some("cn"), Some("sg"), Some("my")}
  }

  predicate Traditional(tag: Tag) {
    tag.script == Some("hant") || tag.region in {Some("tw"), Some("hk"), Some("mo")}
  }

  /** Which locale a Chinese tag selects: the simplified one when its script or region speaks for it
      and neither for the other; the traditional one likewise, and for a tag without script, region
      and variants, whatever its extensions; and none otherwise. */
  lemma ChineseSelects(text: string, tag: Tag)
    requires |text| <= 255 && WellFormed(tag) && LowerAll(text) == Join(Subtags(tag))
    requires tag.language == "zh"
    ensures Preferred(text) == Some(ZhCN) <==> Simplified(tag) && !Traditional(tag)
    ensures Preferred(text) == Some(ZhTW)
            <==> || (Traditional(tag) && !Simplified(tag))
                 || (tag.script.None? && tag.region.None? && tag.variants == [])
    ensures Preferred(text) in {None, Some(ZhCN), Some(ZhTW)}
  {
    hide WellFormed, Subtags, Parsed, LowerAll, Join;
    ParsesWhatIsWritten(text, tag);
    ChineseIsNeither();
  }

  lemma ChineseIsNeither()
    ensures "zh" != "en" && "zh" != "ja"
  {
    assert "zh"[0] != "en"[0] && "zh"[0] != "ja"[0];
  }

  /** Which locale a tag of another language selects: the language decides alone. */
  lemma LanguageSelects(text: string, tag: Tag)
    requires |text| <= 255 && WellFormed(tag) && LowerAll(text) == Join(Subtags(tag))
    ensures Preferred(text) == Some(En) <==> tag.language == "en"
    ensures Preferred(text) == Some(Ja) <==> tag.language == "ja"
    ensures tag.language !in {"en", "ja", "zh"} ==> Preferred(text).None?
  {
    hide WellFormed, Subtags, Parsed, LowerAll, Join;
    ParsesWhatIsWritten(text, tag);
    ChineseIsNeither();
    assert "en"[0] != "ja"[0];
  }

  /** A string that is not written so selects nothing. */
  lemma OthersSelectNothing(text: string)
    requires |text| > 255
             || forall tag :: WellFormed(tag) ==> LowerAll(text) != Join(Subtags(tag))
    ensures Preferred(text).None?
  {
    hide WellFormed, Subtags, Parsed, LowerAll, Join;
    TagAcceptedIff(text);
  }

  /** The classes in which a subtag may stand after the language do not overlap, and these are the
      alphanumeric subtags of two to eight characters that are in none: two characters that are not both
      letters, three that are not all digits, and four that begin with a letter and are not all letters. */
  lemma ClassesAreDisjoint(part: string)
    requires 2 <= |part| <= 8 && AllAlphanumeric(part)
    ensures !(IsScript(part) && IsRegion(part)) && !(IsScript(part) && IsVariant(part))
            && !(IsRegion(part) && IsVariant(part))
    ensures !IsScript(part) && !IsRegion(part) && !IsVariant(part)
            <==> || (|part| == 2 && !AllLetters(part))
                 || (|part| == 3 && !AllDigits(part))
                 || (|part| == 4 && IsLetter(part[0]) && !AllLetters(part))
    ensures IsScript(part) ==> |part| == 4
    ensures IsRegion(part) ==> |part| <= 3
    ensures IsVariant(part) ==> |part| >= 4
  {
  }

  /** Every alphanumeric subtag of up to eight characters may stand in private use, in an extension unless
      it is a single character, and single characters begin one or the other; the language is letters. */
  lemma PlacesOf(part: string)
    ensures IsPrivatePart(part) <==> 1 <= |part| <= 8 && AllAlphanumeric(part)
    ensures IsPrivatePart(part) <==> IsExtensionPart(part) || IsSingleton(part) || part == "x"
    ensures !(IsExtensionPart(part) && IsSingleton(part)) && !IsSingleton("x") && !IsExtensionPart("x")
    ensures IsLanguage(part) <==> IsExtensionPart(part) && AllLetters(part)
  {
    assert part == "x" <==> |part| == 1 && part[0] == 'x';
  }

  /** The same character, or a capital and its small letter. */
  predicate SameLetter(a: char, b: char) {
    a == b || ('A' <= a <= 'Z' && b as int == a as int + 32)
  }

  /** Strings that differ in capitals only are parsed alike, and small letters are read as they stand. */
  lemma CaseDoesNotMatter(text: string, small: string)
    requires |text| == |small| && forall k :: 0 <= k < |text| ==> SameLetter(text[k], small[k])
    requires forall k :: 0 <= k < |small| ==> !('A' <= small[k] <= 'Z')
    ensures LowerAll(text) == LowerAll(small) == small && Parsed(text) == Parsed(small)
  {
    hide Split, Scan;
    forall k | 0 <= k < |text| ensures LowerAll(text)[k] == LowerAll(small)[k] == small[k] {
      assert SameLetter(text[k], small[k]);
    }
  }
}
