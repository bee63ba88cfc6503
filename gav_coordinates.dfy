/**
 * Maven coordinates `groupId:artifactId[:extension][:classifier]:version` as
 * the gitflow helper writes them into its artifact catalog: a colon joiner
 * that skips absent parts, the three mandatory parts checked in order, and the
 * three ways an artifact is turned into its parts (a resolution result, a
 * repository artifact and a project artifact).
 */
module GavCoordinates {
  import opened Wrappers

  /**
   * Why no coordinates could be built: a mandatory argument was null, the
   * resolution result carried no artifact, or the session's type registry
   * does not know the artifact's type.
   */
  datatype GavError = NullArgument(name: string) | MissingArtifact | UnknownArtifactType(artifactType: string)

  /* ---------- the joiner ---------- */

  /** `fields` separated by single colons. */
  function Join(fields: seq<string>): string {
    if |fields| == 0 then ""
    else if |fields| == 1 then fields[0]
    else fields[0] + ":" + Join(fields[1..])
  }

  /** The parts of `s` between its colons, in order; the inverse of `Join`. */
  function Split(s: string): (r: seq<string>)
    ensures |r| >= 1
  {
    if s == [] then [""]
    else if s[0] == ':' then [""] + Split(s[1..])
    else var t := Split(s[1..]); [[s[0]] + t[0]] + t[1..]
  }

  /** The present parts, in their order; the nulls a skipping joiner leaves out. */
  function Present(parts: seq<Option<string>>): (r: seq<string>)
    ensures |r| <= |parts|
  {
    if parts == [] then []
    else (if parts[0].Some? then [parts[0].value] else []) + Present(parts[1..])
  }

  /**
   * Joins the present parts with colons, skipping the absent ones: when at
   * least one part is present and none holds a colon, the output reads back
   * as exactly the present parts, in order.
   */
  function JoinSkipNulls(parts: seq<Option<string>>): (r: string)
    ensures (forall i :: 0 <= i < |parts| && parts[i].Some? ==> NoColon(parts[i].value))
            && (exists i :: 0 <= i < |parts| && parts[i].Some?)
            ==> Split(r) == Present(parts)
  {
    PresentSplits(parts);
    Join(Present(parts))
  }

  predicate NoColon(s: string) { ':' !in s }

  predicate AllNoColon(fields: seq<string>) { forall i :: 0 <= i < |fields| ==> NoColon(fields[i]) }

  /** A colon-free text is one part. */
  lemma {:induction false} SplitSingle(a: string)
    requires NoColon(a)
    ensures Split(a) == [a]
  {
    if a != [] {
      assert a[0] in a;
      assert forall x :: x in a[1..] ==> x in a;
      SplitSingle(a[1..]);
      assert [a[0]] + a[1..] == a;
    }
  }

  /** A colon-free text followed by a colon is the first part. */
  lemma {:induction false} SplitAfter(a: string, rest: string)
    requires NoColon(a)
    ensures Split(a + ":" + rest) == [a] + Split(rest)
  {
    if a == [] {
      assert a + ":" + rest == [':'] + rest;
      assert ([':'] + rest)[1..] == rest;
    } else {
      assert (a + ":" + rest)[1..] == a[1..] + ":" + rest;
      SplitAfter(a[1..], rest);
      assert [a[0]] + a[1..] == a;
    }
  }

  /** Splitting undoes joining when no part holds a colon. */
  lemma {:induction false} SplitJoin(fields: seq<string>)
    requires |fields| >= 1 && AllNoColon(fields)
    ensures Split(Join(fields)) == fields
  {
    if |fields| == 1 {
      SplitSingle(fields[0]);
    } else {
      SplitAfter(fields[0], Join(fields[1..]));
      SplitJoin(fields[1..]);
      assert [fields[0]] + fields[1..] == fields;
    }
  }

  lemma {:induction false} PresentSplits(parts: seq<Option<string>>)
    ensures (forall i :: 0 <= i < |parts| && parts[i].Some? ==> NoColon(parts[i].value))
            && (exists i :: 0 <= i < |parts| && parts[i].Some?)
            ==> Split(Join(Present(parts))) == Present(parts)
  {
    if (forall i :: 0 <= i < |parts| && parts[i].Some? ==> NoColon(parts[i].value))
       && (exists i :: 0 <= i < |parts| && parts[i].Some?) {
      var p := Present(parts);
      PresentMembers(parts);
      forall i | 0 <= i < |p|
        ensures NoColon(p[i])
      {
        assert p[i] in p;
        var j :| 0 <= j < |parts| && parts[j] == Some(p[i]);
      }
      var j :| 0 <= j < |parts| && parts[j].Some?;
      assert parts[j].value in p;
      SplitJoin(p);
    }
  }

  /* ---------- the coordinates ---------- */

  /** The parts in catalog order: group, artifact, optional extension, optional classifier, version. */
  function Fields(groupId: string, artifactId: string, version: string, extension: Option<string>, classifier: Option<string>): seq<string> {
    [groupId, artifactId] + Present([extension, classifier]) + [version]
  }

  /**
   * The coordinates of the given parts: the first null among group id,
   * artifact id and version (in that order) is an error, otherwise the
   * parts joined with colons, absent extension or classifier skipped.
   */
  function Coordinates(groupId: Option<string>, artifactId: Option<string>, version: Option<string>,
                       extension: Option<string>, classifier: Option<string>): (r: Result<string, GavError>)
    ensures r.Err? <==> groupId.None? || artifactId.None? || version.None?
    ensures groupId.None? ==> r == Err(NullArgument("groupId"))
    ensures groupId.Some? && artifactId.None? ==> r == Err(NullArgument("artifactId"))
    ensures groupId.Some? && artifactId.Some? && version.None? ==> r == Err(NullArgument("version"))
    ensures r.Ok? ==> r.value == Join(Fields(groupId.value, artifactId.value, version.value, extension, classifier))
  {
    if groupId.None? then Err(NullArgument("groupId"))
    else if artifactId.None? then Err(NullArgument("artifactId"))
    else if version.None? then Err(NullArgument("version"))
    else
      var parts := [groupId, artifactId, extension, classifier, version];
      PresentOrder(groupId.value, artifactId.value, version.value, extension, classifier);
      Ok(JoinSkipNulls(parts))
  }

  /** A present part comes from the parts, and every given part is present. */
  lemma {:induction false} PresentMembers(parts: seq<Option<string>>)
    ensures forall x :: x in Present(parts) <==> Some(x) in parts
  {
    if parts != [] {
      PresentMembers(parts[1..]);
      assert forall o :: o in parts <==> o == parts[0] || o in parts[1..];
    }
  }

  lemma {:induction false} PresentAppend(a: seq<Option<string>>, b: seq<Option<string>>)
    ensures Present(a + b) == Present(a) + Present(b)
  {
    if a == [] {
      assert a + b == b;
    } else {
      var head := if a[0].Some? then [a[0].value] else [];
      assert (a + b)[0] == a[0];
      assert (a + b)[1..] == a[1..] + b;
      assert Present(a + b) == head + Present(a[1..] + b);
      PresentAppend(a[1..], b);
      assert Present(a) == head + Present(a[1..]);
      assert head + (Present(a[1..]) + Present(b)) == (head + Present(a[1..])) + Present(b);
    }
  }

  lemma {:induction false} PresentOne(o: Option<string>)
    ensures Present([o]) == if o.Some? then [o.value] else []
  {
    assert [o][1..] == [];
  }

  lemma {:induction false} PresentOrder(g: string, a: string, v: string, e: Option<string>, c: Option<string>)
    ensures Present([Some(g), Some(a), e, c, Some(v)]) == Fields(g, a, v, e, c)
  {
    var head, mid, tail := [Some(g), Some(a)], [e, c], [Some(v)];
    assert [Some(g), Some(a), e, c, Some(v)] == head + mid + tail;
    PresentAppend(head + mid, tail);
    PresentAppend(head, mid);
    assert Present(head) == [g, a] by {
      assert head == [Some(g)] + [Some(a)];
      PresentAppend([Some(g)], [Some(a)]);
      PresentOne(Some(g));
      PresentOne(Some(a));
    }
    PresentOne(Some(v));
    assert Present(head + mid + tail) == [g, a] + Present(mid) + [v];
    assert Fields(g, a, v, e, c) == [g, a] + Present(mid) + [v];
  }

  /**
   * Reading colon-free coordinates back: the parts come out in the order
   * group, artifact, extension (when given), classifier (when given), version.
   */
  lemma {:induction false} CoordinatesSplit(g: string, a: string, v: string, e: Option<string>, c: Option<string>)
    requires NoColon(g) && NoColon(a) && NoColon(v)
    requires e.Some? ==> NoColon(e.value)
    requires c.Some? ==> NoColon(c.value)
    ensures Coordinates(Some(g), Some(a), Some(v), e, c).Ok?
    ensures Split(Coordinates(Some(g), Some(a), Some(v), e, c).value)
         == [g, a] + (if e.Some? then [e.value] else []) + (if c.Some? then [c.value] else []) + [v]
  {
    var f := Fields(g, a, v, e, c);
    assert [e, c][1..] == [c];
    assert [c][1..] == [];
    assert Present([e, c]) == (if e.Some? then [e.value] else []) + (if c.Some? then [c.value] else []);
    assert f == [g, a] + (if e.Some? then [e.value] else []) + (if c.Some? then [c.value] else []) + [v];
    assert AllNoColon(f);
    SplitJoin(f);
  }

  /* ---------- repository (Aether) artifacts ---------- */

  /** Guava's `emptyToNull`: the empty string becomes absent. */
  function EmptyToNull(s: string): (r: Option<string>)
    ensures r.None? <==> s == ""
    ensures r.Some? ==> r.value == s
  {
    if s == "" then None else Some(s)
  }

  /** A repository artifact; its getters return the empty string, never null, for a missing part. */
  datatype AetherArtifact = AetherArtifact(groupId: string, artifactId: string, version: string, baseVersion: string,
                                           extension: string, classifier: string)

  /** The outcome of resolving an artifact; the artifact is absent when resolution failed. */
  datatype ArtifactResult = ArtifactResult(artifact: Option<AetherArtifact>)

  /**
   * A repository artifact's coordinates use its base version (`1.0-SNAPSHOT`
   * rather than a timestamped one); an empty part counts as absent, so an
   * empty group id, artifact id or base version is an error and an empty
   * extension or classifier is left out.
   */
  function AetherCoordinates(art: AetherArtifact): (r: Result<string, GavError>)
    ensures r.Err? <==> art.groupId == "" || art.artifactId == "" || art.baseVersion == ""
    ensures art.groupId == "" ==> r == Err(NullArgument("groupId"))
    ensures art.groupId != "" && art.artifactId == "" ==> r == Err(NullArgument("artifactId"))
    ensures art.groupId != "" && art.artifactId != "" && art.baseVersion == "" ==> r == Err(NullArgument("version"))
    ensures r.Ok? ==> r.value == Join(Fields(art.groupId, art.artifactId, art.baseVersion,
                                             EmptyToNull(art.extension), EmptyToNull(art.classifier)))
  {
    Coordinates(EmptyToNull(art.groupId), EmptyToNull(art.artifactId), EmptyToNull(art.baseVersion),
                EmptyToNull(art.extension), EmptyToNull(art.classifier))
  }

  /** Colon-free repository coordinates read back as their non-empty parts, base version last. */
  lemma {:induction false} AetherCoordinatesSplit(art: AetherArtifact)
    requires art.groupId != "" && art.artifactId != "" && art.baseVersion != ""
    requires NoColon(art.groupId) && NoColon(art.artifactId) && NoColon(art.baseVersion)
    requires NoColon(art.extension) && NoColon(art.classifier)
    ensures AetherCoordinates(art).Ok?
    ensures Split(AetherCoordinates(art).value)
         == [art.groupId, art.artifactId]
          + (if art.extension != "" then [art.extension] else [])
          + (if art.classifier != "" then [art.classifier] else [])
          + [art.baseVersion]
  {
    CoordinatesSplit(art.groupId, art.artifactId, art.baseVersion, EmptyToNull(art.extension), EmptyToNull(art.classifier));
  }

  /** A resolution result's coordinates are those of the artifact it carries. */
  function ResultCoordinates(result: ArtifactResult): (r: Result<string, GavError>)
    ensures result.artifact.None? ==> r == Err(MissingArtifact)
    ensures result.artifact.Some? ==> r == AetherCoordinates(result.artifact.value)
    ensures r.Ok? ==> result.artifact.Some? && result.artifact.value.baseVersion != ""
  {
    if result.artifact.None? then Err(MissingArtifact) else AetherCoordinates(result.artifact.value)
  }

  /* ---------- project (Maven) artifacts ---------- */

  /** The repository session; only its artifact type registry (type id to extension) is used. */
  datatype Session = Session(artifactTypes: map<string, string>)

  /** The project being built; its version may be unset. */
  datatype Project = Project(version: Option<string>)

  /** The build log; what is logged is not modelled. */
  datatype Logger = Logger

  datatype Helper = Helper(session: Session, project: Project, log: Logger)

  /** Building a helper: session, project and log must all be given, checked in that order. */
  function NewHelper(session: Option<Session>, project: Option<Project>, log: Option<Logger>): (r: Result<Helper, GavError>)
    ensures r.Ok? <==> session.Some? && project.Some? && log.Some?
    ensures r.Ok? ==> r.value.session == session.value && r.value.project == project.value && r.value.log == log.value
    ensures session.None? ==> r == Err(NullArgument("session"))
    ensures session.Some? && project.None? ==> r == Err(NullArgument("project"))
    ensures session.Some? && project.Some? && log.None? ==> r == Err(NullArgument("log"))
  {
    if session.None? then Err(NullArgument("session"))
    else if project.None? then Err(NullArgument("project"))
    else if log.None? then Err(NullArgument("log"))
    else Ok(Helper(session.value, project.value, log.value))
  }

  /**
   * A project artifact. Group and artifact id may be null; `fileName` is the
   * name of its file when it has one; `hasClassifier` is what the artifact
   * itself answers.
   */
  datatype MavenArtifact = MavenArtifact(groupId: Option<string>, artifactId: Option<string>, artifactType: string,
                                         fileName: Option<string>, classifier: Option<string>, hasClassifier: bool)

  /** Lower case, ASCII letters only. */
  function LowerChar(c: char): char {
    if 'A' <= c <= 'Z' then (c as int - 'A' as int + 'a' as int) as char else c
  }

  function ToLower(s: string): (r: string)
    ensures |r| == |s| && forall i :: 0 <= i < |s| ==> r[i] == LowerChar(s[i])
  {
    if s == [] then [] else [LowerChar(s[0])] + ToLower(s[1..])
  }

  predicate EndsWith(s: string, suffix: string) {
    |suffix| <= |s| && s[|s| - |suffix|..] == suffix
  }

  /**
   * What follows the last dot of `name`, or all of `name` when it has no
   * dot (`substring(lastIndexOf('.') + 1)`).
   */
  function AfterLastDot(name: string): (r: string)
    ensures |r| <= |name| && r == name[|name| - |r|..]
    ensures '.' !in r
    ensures |r| == |name| || name[|name| - |r| - 1] == '.'
  {
    if name == [] || name[|name| - 1] == '.' then ""
    else
      var init := name[..|name| - 1];
      var t := AfterLastDot(init);
      var r := t + [name[|name| - 1]];
      assert r == name[|name| - |r|..] by {
        forall j | 0 <= j < |t|
          ensures r[j] == name[|name| - |r| + j]
        {
          assert t[j] == init[|init| - |t| + j];
        }
      }
      r
  }

  /** Whether `name` ends with `extension`, ignoring case. */
  predicate MatchesExtension(name: string, extension: string) {
    EndsWith(ToLower(name), ToLower(extension))
  }

  /**
   * The extension written for a project artifact: the one its type
   * registers, unless the artifact has a file whose name does not end with
   * it (ignoring case); then what follows the file name's last dot.
   */
  function EffectiveExtension(typeExtension: string, fileName: Option<string>): (r: string)
    ensures fileName.None? ==> r == typeExtension
    ensures fileName.Some? && MatchesExtension(fileName.value, typeExtension) ==> r == typeExtension
    ensures fileName.Some? && !MatchesExtension(fileName.value, typeExtension) ==> r == AfterLastDot(fileName.value)
  {
    if fileName.Some? && !MatchesExtension(fileName.value, typeExtension) then AfterLastDot(fileName.value)
    else typeExtension
  }

  /** A file name without a dot is its own last part. */
  lemma {:induction false} NoDotTakesWholeName(name: string)
    requires '.' !in name
    ensures AfterLastDot(name) == name
  {
    var r := AfterLastDot(name);
  }

  /** The part after the last dot: `archive.tar.gz` gives `gz`. */
  lemma {:induction false} TakesAfterLastDot(stem: string, ext: string)
    requires '.' !in ext
    ensures AfterLastDot(stem + "." + ext) == ext
  {
    var name := stem + "." + ext;
    var r := AfterLastDot(name);
    assert name[|stem|] == '.';
    assert ext == name[|name| - |ext|..];
    assert |r| == |ext|;
  }

  /**
   * A project artifact's coordinates: its type must be registered; the
   * extension is `EffectiveExtension` of the registered one; the version is
   * always the project's, never the artifact's; the classifier is written
   * only when the artifact says it has one. Null group id, artifact id and
   * project version are errors, checked after the type.
   */
  function MavenCoordinates(helper: Helper, art: MavenArtifact): (r: Result<string, GavError>)
    ensures art.artifactType !in helper.session.artifactTypes ==> r == Err(UnknownArtifactType(art.artifactType))
    ensures art.artifactType in helper.session.artifactTypes ==>
              r == Coordinates(art.groupId, art.artifactId, helper.project.version,
                               Some(EffectiveExtension(helper.session.artifactTypes[art.artifactType], art.fileName)),
                               if art.hasClassifier then art.classifier else None)
    ensures r.Ok? <==> art.artifactType in helper.session.artifactTypes
                        && art.groupId.Some? && art.artifactId.Some? && helper.project.version.Some?
  {
    if art.artifactType !in helper.session.artifactTypes then Err(UnknownArtifactType(art.artifactType))
    else
      var extension := EffectiveExtension(helper.session.artifactTypes[art.artifactType], art.fileName);
      Coordinates(art.groupId, art.artifactId, helper.project.version, Some(extension),
                  if art.hasClassifier then art.classifier else None)
  }

  /**
   * Colon-free project coordinates read back as group, artifact, the
   * effective extension, the classifier only when the artifact has one, and
   * the project's version.
   */
  lemma {:induction false} MavenCoordinatesSplit(helper: Helper, art: MavenArtifact)
    requires art.artifactType in helper.session.artifactTypes
    requires art.groupId.Some? && art.artifactId.Some? && helper.project.version.Some?
    requires NoColon(art.groupId.value) && NoColon(art.artifactId.value) && NoColon(helper.project.version.value)
    requires NoColon(helper.session.artifactTypes[art.artifactType])
    requires art.fileName.Some? ==> NoColon(art.fileName.value)
    requires art.classifier.Some? ==> NoColon(art.classifier.value)
    ensures MavenCoordinates(helper, art).Ok?
    ensures Split(MavenCoordinates(helper, art).value)
         == [art.groupId.value, art.artifactId.value,
             EffectiveExtension(helper.session.artifactTypes[art.artifactType], art.fileName)]
          + (if art.hasClassifier && art.classifier.Some? then [art.classifier.value] else [])
          + [helper.project.version.value]
  {
    var ext := EffectiveExtension(helper.session.artifactTypes[art.artifactType], art.fileName);
    EffectiveExtensionNoColon(helper.session.artifactTypes[art.artifactType], art.fileName);
    var cls := if art.hasClassifier then art.classifier else None;
    CoordinatesSplit(art.groupId.value, art.artifactId.value, helper.project.version.value, Some(ext), cls);
  }

  /** An extension taken from a colon-free file name holds no colon. */
  lemma {:induction false} EffectiveExtensionNoColon(typeExtension: string, fileName: Option<string>)
    requires NoColon(typeExtension)
    requires fileName.Some? ==> NoColon(fileName.value)
    ensures NoColon(EffectiveExtension(typeExtension, fileName))
  {
    var ext := EffectiveExtension(typeExtension, fileName);
    if ext != typeExtension {
      SuffixNoColon(fileName.value, ext);
    }
  }

  lemma {:induction false} SuffixNoColon(name: string, r: string)
    requires NoColon(name)
    requires |r| <= |name| && r == name[|name| - |r|..]
    ensures NoColon(r)
  {
    forall j | 0 <= j < |r|
      ensures r[j] != ':'
    {
      assert r[j] == name[|name| - |r| + j];
    }
  }
}
