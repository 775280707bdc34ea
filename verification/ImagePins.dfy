/**
 * Image references and the pins an app's override file records for them
 * (backend/src/services/composeOverride.ts). Reading and writing YAML is taken as exact.
 */
module ImagePins {
  import opened Common
  import opened Strings

  const DOCKER_HUB := "registry-1.docker.io"

  datatype ImageRef = ImageRef(registry: string, repository: string, reference: string, pinned: bool)

  /** The last position of a character; -1 when there is none. */
  function LastIndexOf(s: string, c: char): (i: int)
    ensures -1 <= i < |s|
  {
    if s == "" then -1 else if s[|s| - 1] == c then |s| - 1 else LastIndexOf(s[..|s| - 1], c)
  }

  /** A first component that can only be a registry. */
  predicate LooksLikeHost(head: string) {
    '.' in head || ':' in head || head == "localhost"
  }

  datatype Located = Located(registry: string, remainder: string)

  function Locate(image: string): Located {
    var firstSlash := IndexOf(image, '/');
    if firstSlash < |image| && LooksLikeHost(image[..firstSlash]) then
      Located(image[..firstSlash], image[firstSlash + 1..])
    else Located(DOCKER_HUB, image)
  }

  function UnderLibrary(registry: string, repository: string): string {
    if registry == DOCKER_HUB && '/' !in repository then "library/" + repository else repository
  }

  /** A colon after the last slash starts the tag; one before it is a registry's port. */
  function SplitTag(remainder: string): (string, string) {
    var lastColon := LastIndexOf(remainder, ':');
    if lastColon > LastIndexOf(remainder, '/') then (remainder[..lastColon], remainder[lastColon + 1..])
    else (remainder, "latest")
  }

  function ParseImageRef(image: string): Option<ImageRef> {
    if image == "" || ' ' in image then None
    else
      var at := IndexOf(image, '@');
      if at < |image| then Some(ImageRef("", image[..at], image[at + 1..], true))
      else
        var l := Locate(image);
        var (repository, reference) := SplitTag(l.remainder);
        if repository == "" then None
        else Some(ImageRef(l.registry, UnderLibrary(l.registry, repository), reference, false))
  }

  // ----- Where a character is -----

  lemma {:induction false} LastIndexIs(a: string, c: char, b: string)
    requires c !in b
    ensures LastIndexOf(a + [c] + b, c) == |a|
  {
    var s := a + [c] + b;
    if b != "" {
      LastIndexIs(a, c, b[..|b| - 1]);
      assert s[..|s| - 1] == a + [c] + b[..|b| - 1];
      assert s[|s| - 1] == b[|b| - 1];
    }
  }

  lemma {:induction false} LastIndexMeaning(s: string, c: char)
    ensures LastIndexOf(s, c) == -1 <==> c !in s
    ensures LastIndexOf(s, c) != -1 ==> s[LastIndexOf(s, c)] == c && c !in s[LastIndexOf(s, c) + 1..]
  {
    if s != "" && s[|s| - 1] != c {
      var init := s[..|s| - 1];
      LastIndexMeaning(init, c);
      assert s == init + [s[|s| - 1]];
      var i := LastIndexOf(init, c);
      if i != -1 {
        assert s[i + 1..] == init[i + 1..] + [s[|s| - 1]];
      }
    }
  }

  // ----- Printing -----

  /** An unpinned reference as people write it; no registry means Docker Hub, no tag means `latest`. */
  datatype Name = Name(registry: Option<string>, path: seq<string>, tag: Option<string>)

  predicate Component(s: string) {
    '/' !in s && ':' !in s && '@' !in s && ' ' !in s
  }

  function JoinPath(path: seq<string>): string {
    if path == [] then "" else if |path| == 1 then path[0] else path[0] + "/" + JoinPath(path[1..])
  }

  /** A registry is a host with a domain or a port, or this machine. */
  predicate Host(s: string) {
    s == "localhost" || exists i :: 0 <= i < |s| && (s[i] == '.' || s[i] == ':')
  }

  predicate WellFormed(n: Name) {
    && n.path != [] && (forall i :: 0 <= i < |n.path| ==> n.path[i] != "" && Component(n.path[i]))
    && (n.tag.Some? ==> Component(n.tag.value))
    && (match n.registry
        case Some(host) => Host(host) && '/' !in host && '@' !in host && ' ' !in host
        case None => |n.path| > 1 ==> !Host(n.path[0]))
  }

  lemma HostIff(s: string)
    ensures LooksLikeHost(s) <==> Host(s)
  {
  }

  function WithTag(path: string, tag: Option<string>): string {
    match tag
    case Some(t) => path + ":" + t
    case None => path
  }

  function Print(n: Name): string {
    match n.registry
    case Some(host) => host + "/" + WithTag(JoinPath(n.path), n.tag)
    case None => WithTag(JoinPath(n.path), n.tag)
  }

  /** No registry means Docker Hub, where a name of one component is one of its library; no tag means `latest`. */
  function Meaning(n: Name): ImageRef {
    var registry := if n.registry.Some? then n.registry.value else "registry-1.docker.io";
    ImageRef(
      registry,
      if registry == "registry-1.docker.io" && |n.path| == 1 then "library/" + n.path[0] else JoinPath(n.path),
      if n.tag.Some? then n.tag.value else "latest",
      false)
  }

  lemma LibraryOfPath(n: Name)
    requires WellFormed(n)
    ensures UnderLibrary(Meaning(n).registry, JoinPath(n.path)) == Meaning(n).repository
    ensures Meaning(n).registry == if n.registry.Some? then n.registry.value else DOCKER_HUB
  {
    JoinedPath(n.path);
  }

  lemma {:induction false} JoinedPath(path: seq<string>)
    requires path != [] && forall i :: 0 <= i < |path| ==> path[i] != "" && Component(path[i])
    ensures var s := JoinPath(path); s != "" && ':' !in s && '@' !in s && ' ' !in s && ('/' in s <==> |path| > 1)
  {
    if |path| > 1 {
      JoinedPath(path[1..]);
    }
  }

  /** Finding the registry undoes putting it in front; without one the whole text remains. */
  lemma LocatePrinted(n: Name)
    requires WellFormed(n)
    ensures Locate(Print(n)) ==
            Located(if n.registry.Some? then n.registry.value else DOCKER_HUB, WithTag(JoinPath(n.path), n.tag))
  {
    if n.registry.Some? {
      HostIff(n.registry.value);
    } else {
      HostIff(n.path[0]);
    }
    hide LooksLikeHost;
    hide Host;
    JoinedPath(n.path);
    var rest := WithTag(JoinPath(n.path), n.tag);
    if n.registry.Some? {
      IndexIs(n.registry.value, '/', rest);
      Cut(n.registry.value, "/", rest);
    } else if |n.path| > 1 {
      var tail := WithTag(JoinPath(n.path[1..]), n.tag);
      assert rest == n.path[0] + "/" + tail;
      IndexIs(n.path[0], '/', tail);
      Cut(n.path[0], "/", tail);
    } else {
      NotBeforeIndex(rest, '/');
    }
  }

  lemma {:induction false} LastIndexInPrefix(a: string, b: string, c: char)
    requires c !in b
    ensures LastIndexOf(a + b, c) == LastIndexOf(a, c)
  {
    if b == "" {
      assert a + b == a;
    } else {
      LastIndexInPrefix(a, b[..|b| - 1], c);
      assert (a + b)[..|a + b| - 1] == a + b[..|b| - 1];
    }
  }

  lemma SplitTagged(path: string, tag: string)
    requires '/' !in tag && ':' !in tag
    ensures SplitTag(path + ":" + tag) == (path, tag)
  {
    LastIndexIs(path, ':', tag);
    Cut(path, ":", tag);
    LastIndexInPrefix(path, ":" + tag, '/');
    Assoc(path, ":", tag);
  }

  lemma SplitPrinted(path: string, tag: Option<string>)
    requires ':' !in path && (tag.Some? ==> Component(tag.value))
    ensures SplitTag(WithTag(path, tag)) == (path, if tag.Some? then tag.value else "latest")
  {
    match tag
    case Some(t) => SplitTagged(path, t);
    case None =>
      LastIndexMeaning(path, ':');
  }

  /**
   * Parsing undoes printing: for every well-formed reference, with a registry's port colon never taken for a
   * tag, a missing registry read as Docker Hub, and Docker Hub's single-component names put under `library/`.
   */
  lemma ParseInvertsPrint(n: Name)
    requires WellFormed(n)
    ensures ParseImageRef(Print(n)) == Some(Meaning(n))
  {
    LibraryOfPath(n);
    hide DOCKER_HUB;
    hide Meaning;
    JoinedPath(n.path);
    LocatePrinted(n);
    SplitPrinted(JoinPath(n.path), n.tag);
    PrintedIsPlain(n);
    NotBeforeIndex(Print(n), '@');
    MeaningShape(n);
    hide LooksLikeHost;
    hide UnderLibrary;
  }

  lemma MeaningShape(n: Name)
    ensures Meaning(n) == ImageRef(Meaning(n).registry, Meaning(n).repository, if n.tag.Some? then n.tag.value else "latest", false)
  {
  }

  lemma PrintedIsPlain(n: Name)
    requires WellFormed(n)
    ensures Print(n) != "" && ' ' !in Print(n) && '@' !in Print(n)
  {
    hide LooksLikeHost;
    JoinedPath(n.path);
  }

  /** A reference with a digest is split at its first `@` and left alone otherwise. */
  lemma ParsePinned(name: string, digest: string)
    requires '@' !in name && ' ' !in name && ' ' !in digest
    ensures ParseImageRef(name + "@" + digest) == Some(ImageRef("", name, digest, true))
  {
    IndexIs(name, '@', digest);
    Cut(name, "@", digest);
  }

  function Canonical(r: ImageRef): string {
    if r.pinned then r.repository + "@" + r.reference else r.registry + "/" + r.repository + ":" + r.reference
  }

  /** What is known about any text that parses as an unpinned reference. */
  lemma ParsedParts(image: string)
    requires ParseImageRef(image).Some? && !ParseImageRef(image).value.pinned
    ensures var r := ParseImageRef(image).value;
            && LooksLikeHost(r.registry) && '/' !in r.registry && Clean(r.registry)
            && r.repository != "" && Clean(r.repository)
            && '/' !in r.reference && ':' !in r.reference && Clean(r.reference)
            && UnderLibrary(r.registry, r.repository) == r.repository
  {
    NotBeforeIndex(image, '@');
    var l := Locate(image);
    LocatedParts(image);
    SplitParts(l.remainder);
    var repository := SplitTag(l.remainder).0;
    if repository != "" {
      UnderLibraryOnce(l.registry, repository);
    }
    hide UnderLibrary;
    hide LooksLikeHost;
    hide Locate;
    hide SplitTag;
    hide DOCKER_HUB;
  }

  predicate Clean(s: string) {
    '@' !in s && ' ' !in s
  }

  lemma SplitParts(remainder: string)
    requires Clean(remainder)
    ensures var (repository, reference) := SplitTag(remainder);
            Clean(repository) && '/' !in reference && ':' !in reference && Clean(reference)
  {
    var lastColon, lastSlash := LastIndexOf(remainder, ':'), LastIndexOf(remainder, '/');
    LastIndexMeaning(remainder, ':');
    LastIndexMeaning(remainder, '/');
    if lastColon > lastSlash {
      NotInTail(remainder, lastSlash + 1, lastColon + 1, '/');
    }
  }

  lemma NotInTail(s: string, a: nat, b: nat, c: char)
    requires a <= b <= |s| && c !in s[a..]
    ensures c !in s[b..]
  {
    assert s[b..] == s[a..][b - a..];
  }

  /** Putting a repository under `library/` is done at most once, and keeps it clean. */
  lemma UnderLibraryOnce(registry: string, repository: string)
    requires Clean(repository) && repository != ""
    ensures var r := UnderLibrary(registry, repository); Clean(r) && r != "" && UnderLibrary(registry, r) == r
  {
    hide DOCKER_HUB;
    assert ("library/" + repository)[7] == '/';
  }

  lemma HubIsHost()
    ensures LooksLikeHost(DOCKER_HUB) && '/' !in DOCKER_HUB && Clean(DOCKER_HUB)
  {
    assert DOCKER_HUB[10] == '.';
  }

  lemma LocatedParts(image: string)
    requires Clean(image)
    ensures var l := Locate(image);
            LooksLikeHost(l.registry) && '/' !in l.registry && Clean(l.registry) && Clean(l.remainder)
  {
    NotBeforeIndex(image, '/');
    HubIsHost();
    hide DOCKER_HUB;
    hide LooksLikeHost;
  }

  /** Every text that parses has a canonical spelling, and that parses to the same. */
  lemma CanonicalIsStable(image: string)
    requires ParseImageRef(image).Some?
    ensures ParseImageRef(Canonical(ParseImageRef(image).value)) == ParseImageRef(image)
  {
    var r := ParseImageRef(image).value;
    if r.pinned {
      NotBeforeIndex(image, '@');
      ParsePinned(r.repository, r.reference);
    } else {
      ParsedParts(image);
      CanonicalParses(r);
    }
  }

  lemma CanonicalParses(r: ImageRef)
    requires !r.pinned && LooksLikeHost(r.registry) && '/' !in r.registry && Clean(r.registry)
    requires r.repository != "" && Clean(r.repository)
    requires '/' !in r.reference && ':' !in r.reference && Clean(r.reference)
    requires UnderLibrary(r.registry, r.repository) == r.repository
    ensures ParseImageRef(Canonical(r)) == Some(r)
  {
    hide LooksLikeHost;
    hide UnderLibrary;
    hide DOCKER_HUB;
    hide SplitTag;
    hide IndexOf;
    var text := Canonical(r);
    LocateCanonical(r);
    SplitTagged(r.repository, r.reference);
    CanonicalIsClean(r);
    NotBeforeIndex(text, '@');
    hide Clean;
    hide Canonical;
    hide Locate;
  }

  lemma LocateCanonical(r: ImageRef)
    requires !r.pinned && LooksLikeHost(r.registry) && '/' !in r.registry
    ensures Locate(Canonical(r)) == Located(r.registry, r.repository + ":" + r.reference)
  {
    hide LooksLikeHost;
    hide IndexOf;
    var rest := r.repository + ":" + r.reference;
    IndexIs(r.registry, '/', rest);
    Cut(r.registry, "/", rest);
    assert Canonical(r) == r.registry + "/" + rest;
  }

  lemma CanonicalIsClean(r: ImageRef)
    requires !r.pinned && Clean(r.registry) && Clean(r.repository) && Clean(r.reference)
    ensures Clean(Canonical(r)) && Canonical(r) != ""
  {
  }

  // ----- Pins -----

  /** A service in the override file; `rest` stands for its settings other than the image. */
  datatype Def = Def(image: Option<string>, rest: string)

  datatype File = Absent | Unparseable | Parsed(services: map<string, Def>, rest: string)

  /** The pins to write, in order; None clears a service's pin. */
  type Pins = seq<(string, Option<string>)>

  function ServicesOf(f: File): map<string, Def> {
    if f.Parsed? then f.services else map[]
  }

  predicate IsPinned(d: Def) {
    d.image.Some? && d.image.value != ""
  }

  function Pinned(f: File): map<string, string> {
    PinnedIn(ServicesOf(f))
  }

  function PinnedIn(services: map<string, Def>): map<string, string> {
    map k | k in services && IsPinned(services[k]) :: services[k].image.value
  }

  function WithPin(services: map<string, Def>, pin: (string, Option<string>)): map<string, Def> {
    if pin.1.None? then services - {pin.0}
    else services[pin.0 := Def(pin.1, if pin.0 in services then services[pin.0].rest else "")]
  }

  function Apply(services: map<string, Def>, pins: Pins): map<string, Def> {
    if pins == [] then services else WithPin(Apply(services, pins[..|pins| - 1]), pins[|pins| - 1])
  }

  function WritePins(f: File, pins: Pins): File {
    var services := Apply(ServicesOf(f), pins);
    if services == map[] then Absent else Parsed(services, if f.Parsed? then f.rest else "")
  }

  /** A map of pins overridden by others; an empty reference pins nothing. */
  function Overridden(pinned: map<string, string>, pins: Pins): map<string, string> {
    if pins == [] then pinned
    else
      var pin := pins[|pins| - 1];
      var before := Overridden(pinned, pins[..|pins| - 1]);
      if pin.1.Some? && pin.1.value != "" then before[pin.0 := pin.1.value] else before - {pin.0}
  }

  lemma {:induction false} AppliedPins(services: map<string, Def>, pins: Pins)
    ensures PinnedIn(Apply(services, pins)) == Overridden(PinnedIn(services), pins)
  {
    if pins != [] {
      AppliedPins(services, pins[..|pins| - 1]);
      PinOne(Apply(services, pins[..|pins| - 1]), pins[|pins| - 1]);
    }
  }

  lemma PinOne(services: map<string, Def>, pin: (string, Option<string>))
    ensures PinnedIn(WithPin(services, pin)) ==
            if pin.1.Some? && pin.1.value != "" then PinnedIn(services)[pin.0 := pin.1.value] else PinnedIn(services) - {pin.0}
  {
  }

  /** Reading back what was written gives the old pins overridden by the new ones. */
  lemma {:induction false} WrittenPinsReadBack(f: File, pins: Pins)
    ensures Pinned(WritePins(f, pins)) == Overridden(Pinned(f), pins)
  {
    AppliedPins(ServicesOf(f), pins);
  }

  /** A service that no pin names keeps its entry, whatever it is. */
  lemma {:induction false} OtherServicesStay(services: map<string, Def>, pins: Pins, k: string)
    requires forall i :: 0 <= i < |pins| ==> pins[i].0 != k
    ensures k in Apply(services, pins) <==> k in services
    ensures k in services ==> Apply(services, pins)[k] == services[k]
  {
    if pins != [] {
      OtherServicesStay(services, pins[..|pins| - 1], k);
    }
  }

  /** What the last pin that names a service says. */
  function LastPin(pins: Pins, k: string): Option<Option<string>> {
    if pins == [] then None
    else if pins[|pins| - 1].0 == k then Some(pins[|pins| - 1].1)
    else LastPin(pins[..|pins| - 1], k)
  }

  /** The pins leave the service in the file without an image: it had none and is not named, or gets an empty one. */
  predicate LeftBare(services: map<string, Def>, pins: Pins, k: string) {
    match LastPin(pins, k)
    case None => k in services && !IsPinned(services[k])
    case Some(ref) => ref == Some("")
  }

  lemma {:induction false} Leftovers(services: map<string, Def>, pins: Pins, k: string)
    ensures var after := Apply(services, pins);
            (k in after && !IsPinned(after[k])) <==> LeftBare(services, pins, k)
  {
    if pins != [] {
      Leftovers(services, pins[..|pins| - 1], k);
    }
  }

  /** Nothing is pinned exactly when there is nothing but bare entries. */
  lemma NothingPinnedIff(services: map<string, Def>)
    ensures PinnedIn(services) == map[] <==> forall k <- services :: !IsPinned(services[k])
  {
    if k :| k in services && IsPinned(services[k]) {
      assert k in PinnedIn(services);
    }
  }

  /**
   * The file is gone exactly when nothing is pinned, except when the last pin goes and some entry is left without an
   * image, one that the call does not name or pins to an empty reference: then it stays.
   */
  lemma FileRemovedIff(f: File, pins: Pins)
    ensures (WritePins(f, pins).Absent? <==> Pinned(WritePins(f, pins)) == map[]) <==>
            (Overridden(Pinned(f), pins) != map[] || forall k :: !LeftBare(ServicesOf(f), pins, k))
  {
    var services := Apply(ServicesOf(f), pins);
    WrittenPinsReadBack(f, pins);
    forall k ensures (k in services && !IsPinned(services[k])) <==> LeftBare(ServicesOf(f), pins, k) {
      Leftovers(ServicesOf(f), pins, k);
    }
    hide Apply;
    hide Overridden;
    hide LeftBare;
    NothingPinnedIff(services);
    if services != map[] {
      var k :| k in services;
    }
  }

  /** An entry that only carries other settings keeps the file in place after the last pin is cleared. */
  lemma LeftoverKeepsFile(web: string, other: string, image: string, settings: string)
    requires web != other && image != ""
    ensures var f := Parsed(map[web := Def(Some(image), ""), other := Def(None, settings)], "");
            Pinned(WritePins(f, [(web, None)])) == map[] && !WritePins(f, [(web, None)]).Absent?
  {
    var services := map[web := Def(Some(image), ""), other := Def(None, settings)];
    var pins: Pins := [(web, None)];
    assert pins[..0] == [];
    assert Apply(services, pins) == services - {web};
    assert other in services - {web};
  }

  /** Pinning to an empty reference leaves a file behind although nothing is pinned. */
  lemma EmptyReferenceKeepsFile(service: string)
    ensures Pinned(WritePins(Absent, [(service, Some(""))])) == map[] && !WritePins(Absent, [(service, Some(""))]).Absent?
  {
    var pins: Pins := [(service, Some(""))];
    assert pins[..0] == [];
    assert Apply(map[], pins) == map[service := Def(Some(""), "")];
  }

  /** Files in which every entry carries a pin. */
  predicate OnlyPins(f: File) {
    match f
    case Parsed(services, _) => services != map[] && forall k <- services :: IsPinned(services[k])
    case _ => true
  }

  function WriteAll(f: File, writes: seq<Pins>): File {
    if writes == [] then f else WritePins(WriteAll(f, writes[..|writes| - 1]), writes[|writes| - 1])
  }

  lemma {:induction false} AppliedInTurn(services: map<string, Def>, a: Pins, b: Pins)
    ensures Apply(services, a + b) == Apply(Apply(services, a), b)
  {
    if b == [] {
      assert a + b == a;
    } else {
      AppliedInTurn(services, a, b[..|b| - 1]);
      assert (a + b)[..|a + b| - 1] == a + b[..|b| - 1];
    }
  }

  /** Any number of writes leave the services that one write of all their pins would. */
  lemma {:induction false} WritesAddUp(f: File, writes: seq<Pins>)
    ensures ServicesOf(WriteAll(f, writes)) == Apply(ServicesOf(f), Flatten(writes))
    ensures writes != [] ==> (WriteAll(f, writes).Absent? <==> Apply(ServicesOf(f), Flatten(writes)) == map[])
    ensures WriteAll(f, writes).Parsed? && ServicesOf(WriteAll(f, writes)) == map[] ==> writes == []
  {
    if writes != [] {
      hide Apply;
      var init, last := writes[..|writes| - 1], writes[|writes| - 1];
      WritesAddUp(f, init);
      AppliedInTurn(ServicesOf(f), Flatten(init), last);
      FlattenSnoc(init, last);
      assert init + [last] == writes;
    }
  }

  /** The last pin of the service is an empty reference. */
  predicate EndsEmpty(pins: Pins, k: string) {
    LastPin(pins, k) == Some(Some(""))
  }

  /**
   * Over any number of writes to a file of pins: the file holds nothing but pins exactly as long as no service's last pin
   * is an empty reference, and there is a file exactly while something is pinned if and only if that holds or something
   * is pinned.
   */
  lemma NoFileIffNothingPinned(f: File, writes: seq<Pins>)
    requires OnlyPins(f) && writes != []
    ensures var after, pins := WriteAll(f, writes), Flatten(writes);
            && (OnlyPins(after) <==> forall k :: !EndsEmpty(pins, k))
            && ((after.Absent? <==> Pinned(after) == map[]) <==> Pinned(after) != map[] || forall k :: !EndsEmpty(pins, k))
  {
    var after, pins := WriteAll(f, writes), Flatten(writes);
    var services := ServicesOf(after);
    WritesAddUp(f, writes);
    forall k ensures (k in services && !IsPinned(services[k])) <==> EndsEmpty(pins, k) {
      Leftovers(ServicesOf(f), pins, k);
    }
    hide Apply;
    hide EndsEmpty;
    hide WriteAll;
    NothingPinnedIff(services);
    if services != map[] {
      var k :| k in services;
    }
  }

  class OverrideFile {
    var file: File

    constructor (file: File)
      ensures this.file == file
    {
      this.file := file;
    }

    method WriteImagePins(pins: Pins)
      modifies this
      ensures file == WritePins(old(file), pins)
    {
      var services := ServicesOf(file);
      for i := 0 to |pins|
        invariant services == Apply(ServicesOf(file), pins[..i])
      {
        assert pins[..i + 1][..i] == pins[..i];
        var (service, ref) := pins[i];
        if ref.None? {
          services := services - {service};
        } else {
          var rest := if service in services then services[service].rest else "";
          services := services[service := Def(ref, rest)];
        }
      }
      assert pins[..|pins|] == pins;
      file := if services == map[] then Absent else Parsed(services, if file.Parsed? then file.rest else "");
    }
  }
}
