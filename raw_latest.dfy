/**
 * The lifecycle analyzer of the raw latest version of a module: whether its
 * go.mod deprecates the module, whether it retracts a given version, and the
 * record update that stores both answers in a Module.
 */
module RawLatest {
  import opened Wrappers
  import opened GoStrings
  import opened Semver
  import opened ModFile

  const DeprecatedPrefix: string := "Deprecated:"

  // ---------------------------------------------------------------------------
  // Deprecation
  // ---------------------------------------------------------------------------

  /** A comment's text: one leading "//" removed, then surrounding whitespace trimmed. */
  function CommentText(c: Comment): (t: string)
    ensures IsTrimmed(t)
  {
    TrimSpace(TrimPrefix(c.token, "//"))
  }

  /** The comment marks the module deprecated: its text starts with "Deprecated:". */
  predicate IsDeprecationComment(c: Comment) {
    DeprecatedPrefix <= CommentText(c)
  }

  /** The trimmed text after the "Deprecated:" marker. */
  function DeprecationText(c: Comment): (reason: string)
    requires IsDeprecationComment(c)
    ensures IsTrimmed(reason)
  {
    TrimSpace(CommentText(c)[|DeprecatedPrefix|..])
  }

  /** `cs[i]` is a deprecation comment and none comes before it. */
  predicate FirstDeprecationAt(cs: seq<Comment>, i: int) {
    && 0 <= i < |cs|
    && IsDeprecationComment(cs[i])
    && forall j | 0 <= j < i :: !IsDeprecationComment(cs[j])
  }

  /** The comments that isDeprecated scans, in scanning order. */
  function ScannedComments(m: ModuleStmt): seq<Comment> {
    m.syntax.before + m.syntax.suffix
  }

  /** The loop of isDeprecated: the first deprecation comment decides. */
  function FindDeprecation(cs: seq<Comment>): (r: (bool, string))
    ensures r.0 <==> exists i | 0 <= i < |cs| :: IsDeprecationComment(cs[i])
    ensures forall i | FirstDeprecationAt(cs, i) :: r == (true, DeprecationText(cs[i]))
    ensures r.0 ==> IsTrimmed(r.1)
    ensures !r.0 ==> r.1 == ""
  {
    if cs == [] then (false, "")
    else if IsDeprecationComment(cs[0]) then (true, DeprecationText(cs[0]))
    else
      var r := FindDeprecation(cs[1..]);
      assert forall i | FirstDeprecationAt(cs, i) :: i > 0 && FirstDeprecationAt(cs[1..], i - 1);
      assert forall i | 0 < i < |cs| :: cs[i] == cs[1..][i - 1];
      r
  }

  /** isDeprecated: whether the go.mod deprecates the module, and the reason. */
  function IsDeprecated(mf: File): (r: (bool, string))
    ensures mf.moduleStmt.None? ==> r == (false, "")
    ensures mf.moduleStmt.Some? ==>
      forall i | FirstDeprecationAt(ScannedComments(mf.moduleStmt.value), i) ::
        r == (true, DeprecationText(ScannedComments(mf.moduleStmt.value)[i]))
    ensures mf.moduleStmt.Some? ==>
      (r.0 <==> exists i | 0 <= i < |ScannedComments(mf.moduleStmt.value)| ::
                  IsDeprecationComment(ScannedComments(mf.moduleStmt.value)[i]))
    ensures r.0 ==> IsTrimmed(r.1)
    ensures !r.0 ==> r.1 == ""
  {
    match mf.moduleStmt
    case None => (false, "")
    case Some(m) => FindDeprecation(ScannedComments(m))
  }

  // ---------------------------------------------------------------------------
  // Retraction
  // ---------------------------------------------------------------------------

  /** `v` lies in the directive's interval, both ends included, by semver order. */
  predicate InInterval(r: Retract, v: string) {
    Compare(v, r.low) >= 0 && Compare(v, r.high) <= 0
  }

  /** `rs[i]` contains `v` and no earlier directive does. */
  predicate FirstRetractionAt(rs: seq<Retract>, v: string, i: int) {
    && 0 <= i < |rs|
    && InInterval(rs[i], v)
    && forall j | 0 <= j < i :: !InInterval(rs[j], v)
  }

  /** The loop of isRetracted: the first directive whose interval contains `v` decides. */
  function FindRetraction(rs: seq<Retract>, v: string): (r: (bool, string))
    ensures r.0 <==> exists i | 0 <= i < |rs| :: InInterval(rs[i], v)
    ensures forall i | FirstRetractionAt(rs, v, i) :: r == (true, rs[i].rationale)
    ensures !r.0 ==> r.1 == ""
  {
    if rs == [] then (false, "")
    else if InInterval(rs[0], v) then (true, rs[0].rationale)
    else
      var r := FindRetraction(rs[1..], v);
      assert forall i | FirstRetractionAt(rs, v, i) :: i > 0 && FirstRetractionAt(rs[1..], v, i - 1);
      assert forall i | 0 < i < |rs| :: rs[i] == rs[1..][i - 1];
      r
  }

  /** isRetracted: whether the go.mod retracts `resolvedVersion`, and the rationale. */
  function IsRetracted(mf: File, resolvedVersion: string): (r: (bool, string))
    ensures r.0 <==> exists i | 0 <= i < |mf.retract| :: InInterval(mf.retract[i], resolvedVersion)
    ensures forall i | FirstRetractionAt(mf.retract, resolvedVersion, i) :: r == (true, mf.retract[i].rationale)
    ensures !r.0 ==> r.1 == ""
  {
    FindRetraction(mf.retract, resolvedVersion)
  }

  // ---------------------------------------------------------------------------
  // The record update
  // ---------------------------------------------------------------------------

  /**
   * The module version record that PopulateModule updates: its identity, the
   * other metadata that ingestion fills in, and the four lifecycle fields.
   */
  class Module {
    var modulePath: string
    var version: string
    var commitTime: int
    var isRedistributable: bool
    var hasGoMod: bool
    var licenses: seq<string>
    var units: seq<string>
    var deprecated: bool
    var deprecationComment: string
    var retracted: bool
    var retractionRationale: string

    /** A false lifecycle flag comes with an empty explanation. */
    predicate LifecycleConsistent()
      reads this
    {
      (!deprecated ==> deprecationComment == "") && (!retracted ==> retractionRationale == "")
    }
  }

  /**
   * The raw latest version of a module, without considering retractions; its
   * go.mod establishes deprecation and the retracted versions.
   */
  class RawLatestInfo {
    const modulePath: string
    const version: string
    const goModFile: File

    constructor (modulePath: string, version: string, goModFile: File)
      ensures this.modulePath == modulePath && this.version == version && this.goModFile == goModFile
    {
      this.modulePath := modulePath;
      this.version := version;
      this.goModFile := goModFile;
    }

    /**
     * Sets the deprecation fields from this go.mod, and the retraction fields
     * for the module's own version (not this.version); nothing else changes.
     */
    method PopulateModule(m: Module)
      modifies m
      ensures (m.deprecated, m.deprecationComment) == IsDeprecated(goModFile)
      ensures (m.retracted, m.retractionRationale) == IsRetracted(goModFile, old(m.version))
      ensures m.modulePath == old(m.modulePath) && m.version == old(m.version)
      ensures m.commitTime == old(m.commitTime) && m.isRedistributable == old(m.isRedistributable)
      ensures m.hasGoMod == old(m.hasGoMod) && m.licenses == old(m.licenses) && m.units == old(m.units)
      ensures m.LifecycleConsistent()
    {
      var dep := IsDeprecated(goModFile);
      m.deprecated, m.deprecationComment := dep.0, dep.1;
      var ret := IsRetracted(goModFile, m.version);
      m.retracted, m.retractionRationale := ret.0, ret.1;
    }
  }

  // ---------------------------------------------------------------------------
  // Properties of the deprecation scan
  // ---------------------------------------------------------------------------

  /** Scanning `a + b` is scanning `a`, or, when `a` has no match, scanning `b`. */
  lemma {:induction false} FindDeprecationAppend(a: seq<Comment>, b: seq<Comment>)
    ensures FindDeprecation(a + b) == if FindDeprecation(a).0 then FindDeprecation(a) else FindDeprecation(b)
  {
    if a == [] {
      assert a + b == b;
    } else {
      assert (a + b)[0] == a[0];
      assert (a + b)[1..] == a[1..] + b;
      FindDeprecationAppend(a[1..], b);
    }
  }

  /** A match among the before comments decides, whatever the suffix comments say. */
  lemma BeforeCommentsFirst(mf: File)
    requires mf.moduleStmt.Some?
    ensures IsDeprecated(mf) ==
      var c := mf.moduleStmt.value.syntax;
      if FindDeprecation(c.before).0 then FindDeprecation(c.before) else FindDeprecation(c.suffix)
  {
    var c := mf.moduleStmt.value.syntax;
    FindDeprecationAppend(c.before, c.suffix);
  }

  /** Once a comment has matched, comments after it never change the result. */
  lemma LaterCommentsIgnored(cs: seq<Comment>, later: seq<Comment>)
    requires FindDeprecation(cs).0
    ensures FindDeprecation(cs + later) == FindDeprecation(cs)
  {
    FindDeprecationAppend(cs, later);
  }

  /**
   * The result depends only on the before and suffix comment tokens: not on
   * the module path, the after comments or the retract directives.
   */
  lemma DeprecationDependsOnlyOnComments(p: string, q: string, before: seq<Comment>, suffix: seq<Comment>,
                                         after: seq<Comment>, after': seq<Comment>, rs: seq<Retract>, rs': seq<Retract>)
    ensures IsDeprecated(File(Some(ModuleStmt(p, Comments(before, suffix, after))), rs))
         == IsDeprecated(File(Some(ModuleStmt(q, Comments(before, suffix, after'))), rs'))
  {
  }

  /** The text of a comment "//" + spaces + body + spaces is the trimmed body. */
  lemma CommentTextOf(c: Comment, pad: string, body: string, pad': string)
    requires c.token == "//" + pad + body + pad'
    requires AllSpace(pad) && AllSpace(pad') && IsTrimmed(body)
    ensures CommentText(c) == body
  {
    assert c.token == "//" + (pad + body + pad');
    TrimSpaceOf(pad, body, pad');
  }

  /** The text after the marker, trimmed, is the reason that follows the marker and any spaces. */
  lemma ReasonAfterMarker(text: string, gap: string, reason: string)
    requires text == DeprecatedPrefix + gap + reason
    requires AllSpace(gap) && IsTrimmed(reason)
    ensures TrimSpace(text[|DeprecatedPrefix|..]) == reason
  {
    assert text[|DeprecatedPrefix|..] == gap + reason + [];
    TrimSpaceOf(gap, reason, []);
  }

  lemma MarkedTextTrimmed(gap: string, reason: string)
    requires IsTrimmed(reason) && reason != []
    ensures IsTrimmed(DeprecatedPrefix + gap + reason)
  {
    var t := DeprecatedPrefix + gap + reason;
    assert t[0] == 'D';
    assert t[|t| - 1] == reason[|reason| - 1];
  }

  lemma MarkedCommentText(c: Comment, pad: string, gap: string, reason: string, pad': string)
    requires c.token == "//" + pad + DeprecatedPrefix + gap + reason + pad'
    requires AllSpace(pad) && AllSpace(pad') && IsTrimmed(DeprecatedPrefix + gap + reason)
    ensures CommentText(c) == DeprecatedPrefix + gap + reason
  {
    var text := DeprecatedPrefix + gap + reason;
    assert c.token == "//" + pad + text + pad';
    CommentTextOf(c, pad, text, pad');
  }

  /**
   * A comment "//", spaces, "Deprecated:", spaces, a trimmed reason and spaces
   * is a deprecation comment whose text is exactly the reason.
   */
  lemma DeprecationCommentOf(c: Comment, pad: string, gap: string, reason: string, pad': string)
    requires c.token == "//" + pad + DeprecatedPrefix + gap + reason + pad'
    requires AllSpace(pad) && AllSpace(gap) && AllSpace(pad') && IsTrimmed(reason)
    ensures IsDeprecationComment(c) && DeprecationText(c) == reason
  {
    if reason == [] {
      // Nothing follows the marker: the spaces after it are trimmed away too.
      assert c.token == "//" + pad + DeprecatedPrefix + (gap + pad');
      assert AllSpace(gap + pad') by {
        assert forall k | 0 <= k < |gap + pad'| :: (gap + pad')[k] == if k < |gap| then gap[k] else pad'[k - |gap|];
      }
      CommentTextOf(c, pad, DeprecatedPrefix, gap + pad');
      ReasonAfterMarker(CommentText(c), [], []);
    } else {
      MarkedTextTrimmed(gap, reason);
      MarkedCommentText(c, pad, gap, reason, pad');
      ReasonAfterMarker(CommentText(c), gap, reason);
    }
  }

  /** "// Deprecated:" with nothing but spaces after it deprecates with an empty reason. */
  lemma EmptyReasonExample(mf: File, c: Comment)
    requires c.token == "//" + " " + DeprecatedPrefix + "  "
    requires mf.moduleStmt.Some? && mf.moduleStmt.value.syntax.before == [c] && mf.moduleStmt.value.syntax.suffix == []
    ensures IsDeprecated(mf) == (true, "")
  {
    assert c.token == "//" + " " + DeprecatedPrefix + [] + [] + "  ";
    DeprecationCommentOf(c, " ", [], [], "  ");
    assert ScannedComments(mf.moduleStmt.value) == [c];
  }

  /** The comment "// Deprecated: use baz instead" before the module line. */
  lemma DeprecatedExample(mf: File, c: Comment)
    requires c.token == "//" + " " + DeprecatedPrefix + " " + "use baz instead"
    requires mf.moduleStmt.Some? && mf.moduleStmt.value.syntax.before == [c] && mf.moduleStmt.value.syntax.suffix == []
    ensures IsDeprecated(mf) == (true, "use baz instead")
  {
    assert c.token == "//" + " " + DeprecatedPrefix + " " + "use baz instead" + [];
    DeprecationCommentOf(c, " ", " ", "use baz instead", []);
    assert ScannedComments(mf.moduleStmt.value) == [c];
  }

  /** "//Deprecated:gone" on the module line counts, after a before comment that does not match. */
  lemma SuffixExample(mf: File, b: Comment, c: Comment)
    requires b.token == "//" + " " + "old code" && c.token == "//" + DeprecatedPrefix + "gone"
    requires mf.moduleStmt.Some? && mf.moduleStmt.value.syntax.before == [b] && mf.moduleStmt.value.syntax.suffix == [c]
    ensures IsDeprecated(mf) == (true, "gone")
  {
    assert !IsDeprecationComment(b) by {
      assert b.token == "//" + " " + "old code" + [];
      CommentTextOf(b, " ", "old code", []);
    }
    assert IsDeprecationComment(c) && DeprecationText(c) == "gone" by {
      assert c.token == "//" + [] + DeprecatedPrefix + [] + "gone" + [];
      DeprecationCommentOf(c, [], [], "gone", []);
    }
    assert !FindDeprecation([b]).0;
    assert FindDeprecation([c]) == (true, "gone");
    BeforeCommentsFirst(mf);
  }

  /** The marker is case-sensitive: "// deprecated: lower case" does not match. */
  lemma LowerCaseExample(c: Comment)
    requires c.token == "//" + " " + "deprecated: lower case"
    ensures !IsDeprecationComment(c)
  {
    assert c.token == "//" + " " + "deprecated: lower case" + [];
    CommentTextOf(c, " ", "deprecated: lower case", []);
  }

  /** The marker needs its colon: "// Deprecated without colon" does not match. */
  lemma NoColonExample(c: Comment)
    requires c.token == "//" + " " + "Deprecated without colon"
    ensures !IsDeprecationComment(c)
  {
    assert c.token == "//" + " " + "Deprecated without colon" + [];
    CommentTextOf(c, " ", "Deprecated without colon", []);
    assert "Deprecated without colon"[10] != DeprecatedPrefix[10];
  }

  /** Only one leading "//" is removed: "//// Deprecated: doubled marker" does not match. */
  lemma DoubledMarkerExample(c: Comment)
    requires c.token == "//" + "//" + " " + DeprecatedPrefix + " " + "doubled marker"
    ensures !IsDeprecationComment(c)
  {
    var text := "//" + " " + DeprecatedPrefix + " " + "doubled marker";
    assert c.token == "//" + [] + text + [];
    assert IsTrimmed(text) by {
      assert text[0] == '/';
      assert text[|text| - 1] == 'r';
    }
    CommentTextOf(c, [], text, []);
    assert text[0] != DeprecatedPrefix[0];
  }

  // ---------------------------------------------------------------------------
  // Properties of the retraction scan
  // ---------------------------------------------------------------------------

  /** A directive that contains `v` is never overridden by directives after it. */
  lemma {:induction false} FindRetractionAppend(a: seq<Retract>, b: seq<Retract>, v: string)
    ensures FindRetraction(a + b, v) == if FindRetraction(a, v).0 then FindRetraction(a, v) else FindRetraction(b, v)
  {
    if a == [] {
      assert a + b == b;
    } else {
      assert (a + b)[0] == a[0];
      assert (a + b)[1..] == a[1..] + b;
      FindRetractionAppend(a[1..], b, v);
    }
  }

  /** Both ends of a well-formed interval are retracted. */
  lemma EndpointsRetracted(low: string, high: string, why: string)
    requires Compare(low, high) <= 0
    ensures InInterval(Retract(low, high, why), low)
    ensures InInterval(Retract(low, high, why), high)
  {
    CompareReflexive(low);
    CompareReflexive(high);
    CompareAntisymmetric(low, high);
  }

  /** An interval whose low end lies above its high end retracts nothing. */
  lemma InvertedIntervalEmpty(low: string, high: string, why: string, v: string)
    requires Compare(low, high) > 0
    ensures !InInterval(Retract(low, high, why), v)
  {
    if InInterval(Retract(low, high, why), v) {
      CompareAntisymmetric(v, low);
      CompareTransitive(low, v, high);
    }
  }

  /**
   * `retract [x, x]` retracts exactly the versions semver considers equal to
   * `x`; among canonical spellings, exactly `x` itself.
   */
  lemma SingleVersionRetracted(mf: File, x: string, why: string, v: string)
    requires mf.retract == [Retract(x, x, why)]
    ensures IsRetracted(mf, v).0 <==> Parse(v) == Parse(x)
    ensures IsCanonical(v) && IsCanonical(x) ==> (IsRetracted(mf, v).0 <==> v == x)
  {
    CompareZero(v, x);
    CompareAntisymmetric(v, x);
    if IsCanonical(v) && IsCanonical(x) {
      CanonicalCompareZero(v, x);
    }
  }

  /**
   * An invalid resolved version sorts below every valid one, so it falls in an
   * interval exactly when the interval's low end is invalid too.
   */
  lemma InvalidVersionRetraction(r: Retract, v: string)
    requires !IsValid(v)
    ensures InInterval(r, v) <==> !IsValid(r.low)
  {
  }

  /** `retract [v1.0.0, v1.2.0] // bug` retracts its high end v1.2.0, with rationale "bug". */
  lemma RetractHighEndExample(mf: File, v1_0_0: string, v1_2_0: string)
    requires Parse(v1_0_0) == Some(Version(1, 0, 0)) && Parse(v1_2_0) == Some(Version(1, 2, 0))
    requires mf.retract == [Retract(v1_0_0, v1_2_0, "bug")]
    ensures IsRetracted(mf, v1_2_0) == (true, "bug")
  {
    assert FirstRetractionAt(mf.retract, v1_2_0, 0);
  }

  /** `retract [v1.0.0, v1.2.0] // bug` does not retract v1.2.1, just above it. */
  lemma AboveHighEndExample(mf: File, v1_0_0: string, v1_2_0: string, v1_2_1: string)
    requires Parse(v1_0_0) == Some(Version(1, 0, 0)) && Parse(v1_2_0) == Some(Version(1, 2, 0))
    requires Parse(v1_2_1) == Some(Version(1, 2, 1))
    requires mf.retract == [Retract(v1_0_0, v1_2_0, "bug")]
    ensures IsRetracted(mf, v1_2_1) == (false, "")
  {
  }

  /** `retract [v1.0.0, v1.9.0]` does not retract v1.10.0, which semver places above v1.9.0. */
  lemma SemverNotLexicalExample(mf: File, v1_0_0: string, v1_9_0: string, v1_10_0: string)
    requires Parse(v1_0_0) == Some(Version(1, 0, 0)) && Parse(v1_9_0) == Some(Version(1, 9, 0))
    requires Parse(v1_10_0) == Some(Version(1, 10, 0))
    requires mf.retract == [Retract(v1_0_0, v1_9_0, "old")]
    ensures IsRetracted(mf, v1_10_0) == (false, "")
  {
  }

  /** With two overlapping directives, the first one in file order gives the rationale. */
  lemma OverlappingRetractionsExample(mf: File, v1_0_0: string, v1_1_0: string, v1_2_0: string, v1_3_0: string)
    requires Parse(v1_0_0) == Some(Version(1, 0, 0)) && Parse(v1_1_0) == Some(Version(1, 1, 0))
    requires Parse(v1_2_0) == Some(Version(1, 2, 0)) && Parse(v1_3_0) == Some(Version(1, 3, 0))
    requires mf.retract == [Retract(v1_0_0, v1_2_0, "first"), Retract(v1_1_0, v1_3_0, "second")]
    ensures IsRetracted(mf, v1_1_0) == (true, "first")
  {
    assert FirstRetractionAt(mf.retract, v1_1_0, 0);
  }
}
