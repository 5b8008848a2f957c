/** Recovering the pod and the container of a process from `/proc/<pid>/cgroup`. */
module Cgroup {
  import opened Common
  import opened Text

  // ----- String functions

  predicate EndsWith(s: string, suffix: string) { |suffix| <= |s| && s[|s| - |suffix|..] == suffix }

  predicate StartsWith(s: string, prefix: string) { |prefix| <= |s| && s[..|prefix|] == prefix }

  /** `trim_end_matches`: removes the suffix as often as it is there. */
  function TrimEnd(s: string, suffix: string): string
    requires suffix != []
  {
    if EndsWith(s, suffix) then TrimEnd(s[..|s| - |suffix|], suffix) else s
  }

  /** `rfind`: the start of the last occurrence. */
  function RFind(s: string, pat: string): Option<nat> {
    if |s| < |pat| then None
    else if EndsWith(s, pat) then Some(|s| - |pat|)
    else if s == [] then None
    else RFind(s[..|s| - 1], pat)
  }

  predicate OccursAt(s: string, pat: string, i: nat) { i + |pat| <= |s| && s[i..i + |pat|] == pat }

  lemma {:induction false} RFindIsLast(s: string, pat: string)
    requires pat != []
    ensures match RFind(s, pat)
            case Some(i) => OccursAt(s, pat, i) && forall j :: j > i ==> !OccursAt(s, pat, j)
            case None => forall j :: !OccursAt(s, pat, j)
  {
    if |s| >= |pat| && !EndsWith(s, pat) {
      var t := s[..|s| - 1];
      RFindIsLast(t, pat);
      forall j: nat ensures OccursAt(s, pat, j) <==> OccursAt(t, pat, j) { OccursEarlier(s, pat, j); }
    }
  }

  lemma SliceOfPrefix(s: string, n: nat, i: nat, j: nat)
    requires i <= j <= n <= |s|
    ensures s[..n][i..j] == s[i..j]
  {
  }

  /** A text that does not end with the pattern has it exactly where its front has it. */
  lemma OccursEarlier(s: string, pat: string, j: nat)
    requires |s| >= |pat| > 0 && !EndsWith(s, pat)
    ensures OccursAt(s, pat, j) <==> OccursAt(s[..|s| - 1], pat, j)
  {
    if j + |pat| < |s| {
      SliceOfPrefix(s, |s| - 1, j, j + |pat|);
    }
  }

  predicate Contains(s: string, pat: string) { RFind(s, pat).Some? }

  function ToLower(c: char): char { if 'A' <= c <= 'Z' then 'a' + (c - 'A') else c }

  function Lower(s: string): string { seq(|s|, i requires 0 <= i < |s| => ToLower(s[i])) }

  function Hyphens(s: string): string { seq(|s|, i requires 0 <= i < |s| => if s[i] == '_' then '-' else s[i]) }

  predicate AllHex(s: string) { forall i :: 0 <= i < |s| ==> IsHexDigit(s[i]) }

  // ----- The parser

  datatype CgroupInfo = CgroupInfo(podUid: Option<string>, containerId: Option<string>, path: string)

  predicate IsCanonicalUuid(s: string) {
    |s| == 36 && forall i :: 0 <= i < 36 ==> if i in {8, 13, 18, 23} then s[i] == '-' else IsHexDigit(s[i])
  }

  /** Groups of 8, 4, 4, 4 and 12 digits. */
  function Grouped(u: string, sep: char): (s: string)
    requires |u| == 32
    ensures |s| == 36
  {
    u[0..8] + [sep] + u[8..12] + [sep] + u[12..16] + [sep] + u[16..20] + [sep] + u[20..32]
  }

  function Hyphenated(u: string): string
    requires |u| == 32
  {
    Grouped(u, '-')
  }

  function CanonicalizeUid(raw: string): Option<string> {
    var lower := Lower(Hyphens(raw));
    if IsCanonicalUuid(lower) then Some(lower)
    else if |lower| == 32 && AllHex(lower) then Some(Hyphenated(lower))
    else None
  }

  function ExtractPodUid(segment: string): Option<string> {
    match RFind(segment, "pod")
    case None => None
    case Some(i) =>
      RFindIsLast(segment, "pod");
      CanonicalizeUid(TrimEnd(TrimEnd(segment[i + 3..], ".slice"), ".scope"))
  }

  function StripRuntime(s: string): string {
    if StartsWith(s, "cri-containerd-") then s[15..]
    else if StartsWith(s, "containerd-") then s[11..]
    else if StartsWith(s, "crio-") then s[5..]
    else if StartsWith(s, "docker-") then s[7..]
    else s
  }

  function ExtractContainerId(segment: string): Option<string> {
    var candidate := Lower(StripRuntime(TrimEnd(segment, ".scope")));
    if |candidate| >= 32 && AllHex(candidate) then Some(candidate) else None
  }

  function FirstPodUid(segments: seq<string>): Option<string> {
    if segments == [] then None
    else if ExtractPodUid(segments[0]).Some? then ExtractPodUid(segments[0])
    else FirstPodUid(segments[1..])
  }

  function LastContainerId(segments: seq<string>): Option<string> {
    if segments == [] then None
    else
      var last := ExtractContainerId(segments[|segments| - 1]);
      if last.Some? then last else LastContainerId(segments[..|segments| - 1])
  }

  /** `splitn(3, ':').nth(2)`, or the whole line. */
  function ExtractPath(line: string): string {
    match SplitOnce(line, ':')
    case None => line
    case Some((_, rest)) =>
      match SplitOnce(rest, ':')
      case None => line
      case Some((_, path)) => path
  }

  function ParsePath(path: string): CgroupInfo {
    var segments := Split(path, '/');
    CgroupInfo(FirstPodUid(segments), LastContainerId(segments), path)
  }

  function DropReturn(line: string): string { if EndsWith(line, "\r") then line[..|line| - 1] else line }

  function DropReturns(lines: seq<string>): seq<string> {
    seq(|lines|, i requires 0 <= i < |lines| => DropReturn(lines[i]))
  }

  /** `lines()`: a newline ends a line, with the carriage return before it; no empty last line. */
  function Lines(contents: string): seq<string> {
    var pieces := Split(contents, '\n');
    var ended, last := pieces[..|pieces| - 1], pieces[|pieces| - 1];
    DropReturns(ended) + if last == [] then [] else [last]
  }

  function FirstPodLine(lines: seq<string>): Option<CgroupInfo> {
    if lines == [] then None
    else if Contains(ExtractPath(lines[0]), "kubepods") then Some(ParsePath(ExtractPath(lines[0])))
    else FirstPodLine(lines[1..])
  }

  function ParseCgroup(contents: string): Option<CgroupInfo> { FirstPodLine(Lines(contents)) }

  // ----- UIDs

  predicate IsUid(u: string) { |u| == 32 && AllHex(u) }

  datatype Form = Hyphen | Underscore | Bare

  function PrintUid(u: string, form: Form): string
    requires |u| == 32
  {
    match form
    case Hyphen => Hyphenated(u)
    case Underscore => Grouped(u, '_')
    case Bare => u
  }

  lemma HexSurvives(c: char)
    requires IsHexDigit(c)
    ensures IsHexDigit(ToLower(c)) && ToLower(ToLower(c)) == ToLower(c) && ToLower(c) != '_' && c != '_'
  {
  }

  predicate IsSeparator(i: nat) { i == 8 || i == 13 || i == 18 || i == 23 }

  function DigitIndex(i: nat): nat {
    if i < 8 then i else if 9 <= i < 13 then i - 1 else if 14 <= i < 18 then i - 2 else if 19 <= i < 23 then i - 3
    else if 24 <= i < 36 then i - 4 else 0
  }

  lemma GroupedAt(u: string, sep: char, i: nat)
    requires |u| == 32 && i < 36
    ensures DigitIndex(i) < 32 && Grouped(u, sep)[i] == if IsSeparator(i) then sep else u[DigitIndex(i)]
  {
  }

  lemma LowerIsHex(u: string)
    requires AllHex(u)
    ensures AllHex(Lower(u)) && Lower(Lower(u)) == Lower(u) && Hyphens(u) == u
    ensures forall i :: 0 <= i < |u| ==> Lower(u)[i] != '_' && Lower(u)[i] != '-'
  {
    forall i | 0 <= i < |u|
      ensures IsHexDigit(Lower(u)[i]) && ToLower(Lower(u)[i]) == Lower(u)[i] && u[i] != '_' && Lower(u)[i] != '-'
          && Lower(u)[i] != '_'
    {
      HexSurvives(u[i]);
    }
  }

  lemma GroupedIsCanonical(u: string, sep: char)
    requires IsUid(u) && (sep == '-' || sep == '_')
    ensures Lower(Hyphens(Grouped(u, sep))) == Hyphenated(Lower(u)) && IsCanonicalUuid(Hyphenated(Lower(u)))
  {
    LowerIsHex(u);
    forall i | 0 <= i < 36
      ensures Lower(Hyphens(Grouped(u, sep)))[i] == Hyphenated(Lower(u))[i]
      ensures if i in {8, 13, 18, 23} then Hyphenated(Lower(u))[i] == '-' else IsHexDigit(Hyphenated(Lower(u))[i])
    {
      GroupedAt(u, sep, i);
      GroupedAt(Lower(u), '-', i);
      HexSurvives(u[DigitIndex(i)]);
    }
  }

  /** All three spellings of a UID, in any letter case, have one canonical form. */
  lemma CanonicalForm(u: string, form: Form)
    requires IsUid(u)
    ensures CanonicalizeUid(PrintUid(u, form)) == Some(Hyphenated(Lower(u)))
  {
    LowerIsHex(u);
    match form
    case Hyphen => GroupedIsCanonical(u, '-');
    case Underscore => GroupedIsCanonical(u, '_');
    case Bare =>
  }

  /** Canonicalizing is idempotent. */
  lemma CanonicalizeTwice(raw: string)
    requires CanonicalizeUid(raw).Some?
    ensures CanonicalizeUid(CanonicalizeUid(raw).value) == CanonicalizeUid(raw)
  {
    var lower := Lower(Hyphens(raw));
    if IsCanonicalUuid(lower) {
      forall i | 0 <= i < 36 ensures Lower(Hyphens(lower))[i] == lower[i] {
        assert ToLower(lower[i]) == lower[i] && lower[i] != '_';
      }
      assert Lower(Hyphens(lower)) == lower;
    } else {
      assert Lower(lower) == lower;
      GroupedIsCanonical(lower, '-');
    }
  }

  /** The accepted texts: 32 hex digits, or 36 characters with a hyphen or underscore between the groups. */
  lemma AcceptedUids(raw: string)
    ensures CanonicalizeUid(raw).Some? <==>
            || (|raw| == 32 && forall i :: 0 <= i < 32 ==> IsHexDigit(raw[i]))
            || (|raw| == 36 && forall i :: 0 <= i < 36 ==>
                  if i == 8 || i == 13 || i == 18 || i == 23 then raw[i] == '-' || raw[i] == '_'
                  else IsHexDigit(raw[i]))
    ensures CanonicalizeUid(raw).Some? ==>
              var u := CanonicalizeUid(raw).value;
              |u| == 36 && forall i :: 0 <= i < 36 ==>
                if i == 8 || i == 13 || i == 18 || i == 23 then u[i] == '-' else u[i] in "0123456789abcdef"
  {
    var lower := Lower(Hyphens(raw));
    forall i | 0 <= i < |raw|
      ensures IsHexDigit(lower[i]) <==> IsHexDigit(raw[i])
      ensures lower[i] == '-' <==> raw[i] == '-' || raw[i] == '_'
      ensures IsHexDigit(lower[i]) ==> lower[i] in "0123456789abcdef"
    {
      HexValues(raw[i]);
      HexValues(lower[i]);
      if IsHexDigit(raw[i]) {
        LowerHex(raw[i]);
      }
    }
    if |raw| == 32 && AllHex(raw) {
      forall i | 0 <= i < 36
        ensures if IsSeparator(i) then Hyphenated(lower)[i] == '-' else Hyphenated(lower)[i] in "0123456789abcdef"
      {
        GroupedAt(lower, '-', i);
      }
    }
  }

  lemma LowerHex(c: char)
    requires IsHexDigit(c)
    ensures ToLower(c) in "0123456789abcdef"
  {
    HexValues(c);
    HexValues(ToLower(c));
  }

  // ----- Segments

  lemma {:induction false} TrimEndLength(s: string, suffix: string)
    requires suffix != []
    ensures |TrimEnd(s, suffix)| <= |s|
  {
    if EndsWith(s, suffix) {
      TrimEndLength(s[..|s| - |suffix|], suffix);
    }
  }

  /** Trimming removes the suffix as often as it is there, and nothing else. */
  lemma {:induction false} TrimEndIsDone(s: string, suffix: string)
    requires suffix != []
    ensures !EndsWith(TrimEnd(s, suffix), suffix)
    ensures TrimEnd(s + suffix, suffix) == TrimEnd(s, suffix)
  {
    assert (s + suffix)[|s|..] == suffix && (s + suffix)[..|s|] == s;
    if EndsWith(s, suffix) {
      TrimEndIsDone(s[..|s| - |suffix|], suffix);
    }
  }

  /** A container id has at least 32 characters, all of them lower-case hex digits. */
  lemma ContainerIdShape(segment: string)
    ensures ExtractContainerId(segment).Some? ==>
              var id := ExtractContainerId(segment).value;
              |id| >= 32 && forall i :: 0 <= i < |id| ==> id[i] in "0123456789abcdef"
  {
    var raw := StripRuntime(TrimEnd(segment, ".scope"));
    forall i | 0 <= i < |raw| && IsHexDigit(ToLower(raw[i])) ensures Lower(raw)[i] in "0123456789abcdef" {
      HexValues(raw[i]);
      HexValues(ToLower(raw[i]));
      LowerHex(raw[i]);
    }
  }

  /** No segment shorter than 35 characters can hold a UID after a `pod` marker. */
  lemma ShortSegment(segment: string)
    requires |segment| < 35
    ensures ExtractPodUid(segment) == None
  {
    RFindIsLast(segment, "pod");
    var i := RFind(segment, "pod");
    if i.Some? {
      var after := segment[i.value + 3..];
      TrimEndLength(after, ".slice");
      TrimEndLength(TrimEnd(after, ".slice"), ".scope");
    }
  }

  /** Nor can a segment without a `p`, such as a bare container id of any length. */
  lemma SegmentWithoutMarker(segment: string)
    requires 'p' !in segment
    ensures ExtractPodUid(segment) == None
  {
    RFindIsLast(segment, "pod");
    forall j: nat ensures !OccursAt(segment, "pod", j) {
      if j < |segment| {
        assert segment[j] in segment;
      }
      NoMarkerWithoutP(segment, j);
    }
  }

  lemma DiffersAtEnd(s: string, suffix: string, i: nat)
    requires i < |suffix| <= |s| && s[|s| - |suffix| + i] != suffix[i]
    ensures !EndsWith(s, suffix)
  {
  }

  lemma DiffersAtStart(s: string, prefix: string, i: nat)
    requires i < |prefix| && i < |s| && s[i] != prefix[i]
    ensures !StartsWith(s, prefix)
  {
  }

  lemma TrimNothing(s: string, suffix: string)
    requires suffix != [] && suffix[0] !in s
    ensures TrimEnd(s, suffix) == s
  {
    if |suffix| <= |s| {
      assert s[|s| - |suffix|] in s;
      DiffersAtEnd(s, suffix, 0);
    }
  }

  lemma TrimOnce(s: string, suffix: string)
    requires suffix != [] && suffix[0] !in s
    ensures TrimEnd(s + suffix, suffix) == s
  {
    assert (s + suffix)[|s|..] == suffix && (s + suffix)[..|s|] == s;
    TrimNothing(s, suffix);
  }

  /** A printed UID is made of hex digits and separators. */
  lemma UidCharacters(u: string, form: Form)
    requires IsUid(u)
    ensures forall i :: 0 <= i < |PrintUid(u, form)| ==>
              IsHexDigit(PrintUid(u, form)[i]) || PrintUid(u, form)[i] == '-' || PrintUid(u, form)[i] == '_'
  {
    hide IsHexDigit, Grouped;
    if form != Bare {
      var sep := if form == Hyphen then '-' else '_';
      assert PrintUid(u, form) == Grouped(u, sep);
      forall i | 0 <= i < 36 ensures Grouped(u, sep)[i] == sep || IsHexDigit(Grouped(u, sep)[i]) {
        GroupedAt(u, sep, i);
      }
    }
  }

  function SliceEnd(slice: bool): string { if slice then ".slice" else [] }

  function PodSegment(head: string, u: string, form: Form, slice: bool): string
    requires |u| == 32
  {
    head + ("pod" + (PrintUid(u, form) + SliceEnd(slice)))
  }

  lemma NoMarkerWithoutP(s: string, j: nat)
    requires j >= |s| || s[j] != 'p'
    ensures !OccursAt(s, "pod", j)
  {
    if j + 3 <= |s| {
      assert s[j..j + 3][0] == s[j] && "pod"[0] == 'p';
    }
  }

  lemma OccursInMiddle(a: string, pat: string, b: string)
    ensures OccursAt(a + (pat + b), pat, |a|)
  {
    assert (a + (pat + b))[|a|..|a| + |pat|] == pat;
  }

  /** Whatever precedes it, even another `pod`, the last marker is the one before the UID. */
  lemma LastMarker(head: string, tail: string)
    requires 'p' !in tail
    ensures RFind(head + ("pod" + tail), "pod") == Some(|head|)
  {
    hide RFind, OccursAt;
    var s := head + ("pod" + tail);
    RFindIsLast(s, "pod");
    OccursInMiddle(head, "pod", tail);
    forall j: nat | j > |head| ensures !OccursAt(s, "pod", j) {
      if |head| + 3 <= j < |s| {
        assert s[j] == tail[j - |head| - 3];
        assert s[j] in tail;
      } else if j < |s| {
        assert s[j] == "pod"[j - |head|];
      }
      NoMarkerWithoutP(s, j);
    }
  }

  lemma PodSegmentParses(head: string, u: string, form: Form, slice: bool)
    requires IsUid(u)
    ensures ExtractPodUid(PodSegment(head, u, form, slice)) == Some(Hyphenated(Lower(u)))
  {
    var uid, tail := PrintUid(u, form), PrintUid(u, form) + SliceEnd(slice);
    UidCharacters(u, form);
    assert 'p' !in uid && '.' !in uid;
    LastMarker(head, tail);
    assert PodSegment(head, u, form, slice)[|head| + 3..] == tail;
    if slice {
      TrimOnce(uid, ".slice");
    } else {
      assert tail == uid;
      TrimNothing(uid, ".slice");
    }
    TrimNothing(uid, ".scope");
    CanonicalForm(u, form);
  }

  /** A scope ending is trimmed as well, but only after the slice ending. */
  lemma PodScopeParses(head: string, u: string, form: Form)
    requires IsUid(u)
    ensures ExtractPodUid(head + ("pod" + (PrintUid(u, form) + ".scope"))) == Some(Hyphenated(Lower(u)))
    ensures ExtractPodUid(head + ("pod" + (PrintUid(u, form) + ".scope" + ".slice"))) == Some(Hyphenated(Lower(u)))
  {
    var uid := PrintUid(u, form);
    UidCharacters(u, form);
    assert 'p' !in uid && '.' !in uid;
    CanonicalForm(u, form);
    ScopeAfterMarker(head, uid, []);
    ScopeAfterMarker(head, uid, ".slice");
    assert uid + ".scope" + [] == uid + ".scope";
  }

  lemma ScopeAfterMarker(head: string, uid: string, end: string)
    requires 'p' !in uid && '.' !in uid && (end == [] || end == ".slice")
    ensures ExtractPodUid(head + ("pod" + (uid + ".scope" + end))) == CanonicalizeUid(uid)
  {
    hide CanonicalizeUid, RFind, OccursAt;
    var tail := uid + ".scope" + end;
    var s := head + ("pod" + tail);
    RFindIsLast(s, "pod");
    OccursInMiddle(head, "pod", tail);
    forall j: nat | j > |head| ensures !OccursAt(s, "pod", j) {
      if j < |s| {
        OnlyScopeHasP(head, uid, end, j);
      }
      if j < |s| && s[j] == 'p' {
        NoMarkerWithoutO(s, j);
      } else {
        NoMarkerWithoutP(s, j);
      }
    }
    assert s[|head| + 3..] == tail;
    NotSlice(uid + ".scope", 'e');
    if end == ".slice" {
      TrimEndIsDone(uid + ".scope", ".slice");
    } else {
      assert tail == uid + ".scope";
    }
    TrimOnce(uid, ".scope");
  }

  lemma OnlyScopeHasP(head: string, uid: string, end: string, j: nat)
    requires 'p' !in uid && (end == [] || end == ".slice")
    requires |head| < j < |head + ("pod" + (uid + ".scope" + end))|
    ensures var s := head + ("pod" + (uid + ".scope" + end)); s[j] == 'p' ==> j + 1 < |s| && s[j + 1] == 'e'
  {
    var tail := uid + ".scope" + end;
    var s, k := head + ("pod" + tail), j - |head| - 3;
    if k < 0 {
      assert s[j] == "pod"[j - |head|];
    } else if k < |uid| {
      assert s[j] == tail[k] == uid[k];
      assert uid[k] in uid;
    } else if k < |uid| + 6 {
      assert s[j] == tail[k] == ".scope"[k - |uid|];
    } else {
      assert s[j] == tail[k] == end[k - |uid| - 6];
    }
  }

  lemma NoMarkerWithoutO(s: string, j: nat)
    requires j + 1 >= |s| || s[j + 1] != 'o'
    ensures !OccursAt(s, "pod", j)
  {
    if j + 3 <= |s| {
      assert s[j..j + 3][1] == s[j + 1] && "pod"[1] == 'o';
    }
  }

  /** A scope ending is not a slice ending. */
  lemma NotSlice(s: string, last: char)
    requires EndsWith(s, ".scope") && last == 'e'
    ensures TrimEnd(s, ".slice") == s
  {
    assert s[|s| - 6..][2] == 'c';
    DiffersAtEnd(s, ".slice", 2);
  }

  datatype Runtime = NoPrefix | CriContainerd | Containerd | Crio | Docker

  function Prefix(r: Runtime): string {
    match r
    case NoPrefix => []
    case CriContainerd => "cri-containerd-"
    case Containerd => "containerd-"
    case Crio => "crio-"
    case Docker => "docker-"
  }

  function ScopeEnd(scope: bool): string { if scope then ".scope" else [] }

  function ContainerSegment(r: Runtime, cid: string, scope: bool): string { Prefix(r) + cid + ScopeEnd(scope) }

  predicate IsCid(cid: string) { |cid| >= 32 && AllHex(cid) }

  lemma StripPrefixOf(r: Runtime, cid: string)
    requires IsCid(cid)
    ensures StripRuntime(Prefix(r) + cid) == cid
  {
    var s := Prefix(r) + cid;
    match r {
      case NoPrefix =>
        assert s == cid && IsHexDigit(s[1]) && IsHexDigit(s[2]);
        DiffersAtStart(s, "cri-containerd-", 1);
        DiffersAtStart(s, "containerd-", 1);
        DiffersAtStart(s, "crio-", 1);
        DiffersAtStart(s, "docker-", 1);
      case CriContainerd =>
        assert s[..15] == "cri-containerd-" && s[15..] == cid;
      case Containerd =>
        assert s[..11] == "containerd-" && s[11..] == cid;
        DiffersAtStart(s, "cri-containerd-", 1);
      case Crio =>
        assert s[..5] == "crio-" && s[5..] == cid;
        DiffersAtStart(s, "cri-containerd-", 3);
        DiffersAtStart(s, "containerd-", 1);
      case Docker =>
        assert s[..7] == "docker-" && s[7..] == cid;
        DiffersAtStart(s, "cri-containerd-", 0);
        DiffersAtStart(s, "containerd-", 0);
        DiffersAtStart(s, "crio-", 0);
    }
  }

  lemma ContainerSegmentParses(r: Runtime, cid: string, scope: bool)
    requires IsCid(cid)
    ensures ExtractContainerId(ContainerSegment(r, cid, scope)) == Some(Lower(cid))
  {
    var s := Prefix(r) + cid;
    assert '.' !in s by {
      assert forall i :: 0 <= i < |cid| ==> IsHexDigit(cid[i]);
      assert '.' !in cid && '.' !in Prefix(r);
    }
    if scope {
      TrimOnce(s, ".scope");
    } else {
      assert s + ScopeEnd(scope) == s;
      TrimNothing(s, ".scope");
    }
    StripPrefixOf(r, cid);
    forall i | 0 <= i < |cid| ensures IsHexDigit(Lower(cid)[i]) {
      HexSurvives(cid[i]);
    }
  }

  // ----- Paths and files

  lemma {:induction false} SkipSegments(pre: seq<string>, rest: seq<string>)
    requires forall i :: 0 <= i < |pre| ==> ExtractPodUid(pre[i]) == None
    ensures FirstPodUid(pre + rest) == FirstPodUid(rest)
  {
    hide ExtractPodUid;
    if pre == [] {
      assert pre + rest == rest;
    } else {
      assert (pre + rest)[1..] == pre[1..] + rest;
      SkipSegments(pre[1..], rest);
    }
  }

  /** The pod is the one of the first segment that names one, the container that of the last. */
  lemma {:induction false} FirstPodWins(segments: seq<string>)
    ensures FirstPodUid(segments) == None <==> forall i :: 0 <= i < |segments| ==> ExtractPodUid(segments[i]) == None
    ensures FirstPodUid(segments).Some? ==>
              exists i :: 0 <= i < |segments| && FirstPodUid(segments) == ExtractPodUid(segments[i]) &&
                          forall j :: 0 <= j < i ==> ExtractPodUid(segments[j]) == None
  {
    hide ExtractPodUid;
    if segments != [] && ExtractPodUid(segments[0]) == None {
      var rest := segments[1..];
      FirstPodWins(rest);
      assert forall i :: 0 <= i < |rest| ==> segments[i + 1] == rest[i];
      if FirstPodUid(rest).Some? {
        var i :| 0 <= i < |rest| && FirstPodUid(rest) == ExtractPodUid(rest[i]) &&
                 forall j :: 0 <= j < i ==> ExtractPodUid(rest[j]) == None;
        assert FirstPodUid(segments) == ExtractPodUid(segments[i + 1]);
      }
    }
  }

  lemma {:induction false} LastContainerWins(segments: seq<string>)
    ensures LastContainerId(segments) == None <==>
            forall i :: 0 <= i < |segments| ==> ExtractContainerId(segments[i]) == None
    ensures LastContainerId(segments).Some? ==>
              exists i :: 0 <= i < |segments| && LastContainerId(segments) == ExtractContainerId(segments[i]) &&
                          forall j :: i < j < |segments| ==> ExtractContainerId(segments[j]) == None
  {
    hide ExtractContainerId;
    if segments != [] {
      var n := |segments| - 1;
      LastContainerWins(segments[..n]);
      assert forall i :: 0 <= i < n ==> segments[..n][i] == segments[i];
      assert ExtractContainerId(segments[n]) == ExtractContainerId(segments[n]);
    }
  }

  /** The answer is that of the first line whose path mentions `kubepods`, and there is none without one. */
  lemma {:induction false} FirstPodLineWins(lines: seq<string>)
    ensures FirstPodLine(lines) == None <==>
            forall i :: 0 <= i < |lines| ==> !Contains(ExtractPath(lines[i]), "kubepods")
    ensures FirstPodLine(lines).Some? ==>
              exists i :: 0 <= i < |lines| && Contains(ExtractPath(lines[i]), "kubepods") &&
                          FirstPodLine(lines) == Some(ParsePath(ExtractPath(lines[i]))) &&
                          forall j :: 0 <= j < i ==> !Contains(ExtractPath(lines[j]), "kubepods")
  {
    hide Contains, ExtractPath, ParsePath;
    if lines != [] && !Contains(ExtractPath(lines[0]), "kubepods") {
      var rest := lines[1..];
      FirstPodLineWins(rest);
      assert forall i :: 0 <= i < |rest| ==> lines[i + 1] == rest[i];
      if FirstPodLine(rest).Some? {
        var i :| 0 <= i < |rest| && Contains(ExtractPath(rest[i]), "kubepods") &&
                 FirstPodLine(rest) == Some(ParsePath(ExtractPath(rest[i]))) &&
                 forall j :: 0 <= j < i ==> !Contains(ExtractPath(rest[j]), "kubepods");
        assert Contains(ExtractPath(lines[i + 1]), "kubepods");
      }
    }
  }

  /** A line with fewer than two colons is taken as a path. */
  lemma PathWithoutColons(a: string, b: string)
    requires ':' !in a && ':' !in b
    ensures ExtractPath(a) == a && ExtractPath(a + [':'] + b) == a + [':'] + b
  {
    SplitOnceNothing(a, ':');
    SplitOnceNothing(b, ':');
    SplitOnceAtFirst(a, ':', b);
  }

  /** Free of the characters that end a segment or a line. */
  predicate Clean(s: string) { '/' !in s && '\n' !in s && '\r' !in s }

  /** Segments that yield no UID themselves. */
  ghost predicate Outer(segments: seq<string>) {
    forall i :: 0 <= i < |segments| ==> Clean(segments[i]) && ExtractPodUid(segments[i]) == None
  }

  ghost predicate GoodParts(pre: seq<string>, head: string, u: string, cid: string) {
    Outer(pre) && Clean(head) && IsUid(u) && IsCid(cid)
  }

  function PodPath(pre: seq<string>, head: string, u: string, form: Form, slice: bool, r: Runtime, cid: string,
      scope: bool): string
    requires |u| == 32
  {
    Join(pre + [PodSegment(head, u, form, slice), ContainerSegment(r, cid, scope)], '/')
  }

  /** Any pod path gives back the canonical UID of its pod and the id of its container. */
  lemma PathRoundTrip(pre: seq<string>, head: string, u: string, form: Form, slice: bool, r: Runtime, cid: string,
      scope: bool)
    requires GoodParts(pre, head, u, cid)
    ensures var path := PodPath(pre, head, u, form, slice, r, cid, scope);
            ParsePath(path) == CgroupInfo(Some(Hyphenated(Lower(u))), Some(Lower(cid)), path)
  {
    var pod, container := PodSegment(head, u, form, slice), ContainerSegment(r, cid, scope);
    var segments := pre + [pod, container];
    SegmentsAreClean(head, u, form, slice, r, cid, scope);
    SplitJoin(segments, '/');
    SkipSegments(pre, [pod, container]);
    PodSegmentParses(head, u, form, slice);
    ContainerSegmentParses(r, cid, scope);
  }

  lemma HexIsClean(s: string)
    requires forall i :: 0 <= i < |s| ==> IsHexDigit(s[i]) || s[i] == '-' || s[i] == '_'
    ensures Clean(s)
  {
  }

  lemma CleanParts(a: string, b: string)
    requires Clean(a) && Clean(b)
    ensures Clean(a + b)
  {
  }

  lemma SegmentsAreClean(head: string, u: string, form: Form, slice: bool, r: Runtime, cid: string, scope: bool)
    requires Clean(head) && IsUid(u) && IsCid(cid)
    ensures Clean(PodSegment(head, u, form, slice)) && Clean(ContainerSegment(r, cid, scope))
  {
    hide Clean, PrintUid;
    UidCharacters(u, form);
    HexIsClean(PrintUid(u, form));
    HexIsClean(cid);
    LiteralsAreClean(slice, r, scope);
    CleanParts(PrintUid(u, form), SliceEnd(slice));
    CleanParts("pod", PrintUid(u, form) + SliceEnd(slice));
    CleanParts(head, "pod" + (PrintUid(u, form) + SliceEnd(slice)));
    CleanParts(Prefix(r), cid);
    CleanParts(Prefix(r) + cid, ScopeEnd(scope));
  }

  lemma LiteralsAreClean(slice: bool, r: Runtime, scope: bool)
    ensures Clean("pod") && Clean(SliceEnd(slice)) && Clean(Prefix(r)) && Clean(ScopeEnd(scope))
  {
  }

  lemma PathIsOneLine(pre: seq<string>, head: string, u: string, form: Form, slice: bool, r: Runtime, cid: string,
      scope: bool)
    requires GoodParts(pre, head, u, cid)
    ensures var path := PodPath(pre, head, u, form, slice, r, cid, scope); '\n' !in path && '\r' !in path
  {
    var segments := pre + [PodSegment(head, u, form, slice), ContainerSegment(r, cid, scope)];
    SegmentsAreClean(head, u, form, slice, r, cid, scope);
    JoinAvoids(segments, '/', '\n');
    JoinAvoids(segments, '/', '\r');
  }

  /** A hierarchy line: its number, its controllers and its path. */
  function CgroupLine(number: string, controllers: string, path: string): string {
    number + ([':'] + (controllers + ([':'] + path)))
  }

  lemma ExtractPathOf(number: string, controllers: string, path: string)
    requires ':' !in number && ':' !in controllers
    ensures ExtractPath(CgroupLine(number, controllers, path)) == path
  {
    var rest := controllers + ([':'] + path);
    assert CgroupLine(number, controllers, path) == number + [':'] + rest;
    SplitOnceAtFirst(number, ':', rest);
    assert rest == controllers + [':'] + path;
    SplitOnceAtFirst(controllers, ':', path);
  }

  predicate OneLine(line: string) { '\n' !in line }

  lemma PodLineEnds(number: string, controllers: string, path: string)
    requires '\n' !in number && '\n' !in controllers && '\n' !in path && '\r' !in path
    ensures var line := CgroupLine(number, controllers, path); OneLine(line) && line != [] && DropReturn(line) == line
  {
    var line := CgroupLine(number, controllers, path);
    if path != [] {
      assert line[|line| - 1] == path[|path| - 1];
      assert path[|path| - 1] in path;
    }
    DiffersAtEnd(line, "\r", 0);
  }

  /** A file whose lines end in carriage return and newline has these lines; a last return without newline stays. */
  lemma ReturnsAreDropped(lines: seq<string>, last: string)
    requires forall i :: 0 <= i < |lines| ==> OneLine(lines[i])
    requires OneLine(last)
    ensures var ended := seq(|lines|, i requires 0 <= i < |lines| => lines[i] + "\r");
            && Lines(Join(ended + [[]], '\n')) == lines
            && Lines(Join(ended + [last + "\r"], '\n')) == lines + [last + "\r"]
  {
    var ended := seq(|lines|, i requires 0 <= i < |lines| => lines[i] + "\r");
    SplitJoin(ended + [[]], '\n');
    SplitJoin(ended + [last + "\r"], '\n');
    assert (ended + [[]])[..|lines|] == ended && (ended + [last + "\r"])[..|lines|] == ended;
    forall i | 0 <= i < |lines| ensures DropReturn(ended[i]) == lines[i] {
      assert ended[i][|ended[i]| - 1..] == "\r" && ended[i][..|ended[i]| - 1] == lines[i];
    }
    assert DropReturns(ended) == lines;
  }

  lemma DropReturnsThrough(before: seq<string>, line: string, front: seq<string>)
    requires DropReturn(line) == line
    ensures DropReturns(before + ([line] + front)) == DropReturns(before) + ([line] + DropReturns(front))
  {
    hide DropReturn;
  }

  /** Wherever a line stands in the file, it is read after the lines before it. */
  lemma LinesFrom(before: seq<string>, line: string, after: seq<string>) returns (rest: seq<string>)
    requires forall i :: 0 <= i < |before| ==> OneLine(before[i])
    requires forall i :: 0 <= i < |after| ==> OneLine(after[i])
    requires OneLine(line) && line != [] && DropReturn(line) == line
    ensures Lines(Join(before + ([line] + after), '\n')) == DropReturns(before) + ([line] + rest)
  {
    hide DropReturn, DropReturns;
    var pieces := before + ([line] + after);
    SplitJoin(pieces, '\n');
    if after == [] {
      assert pieces[..|pieces| - 1] == before && pieces[|pieces| - 1] == line;
      rest := [];
    } else {
      var front, last := after[..|after| - 1], after[|after| - 1];
      assert pieces[..|pieces| - 1] == before + ([line] + front) && pieces[|pieces| - 1] == last;
      DropReturnsThrough(before, line, front);
      rest := DropReturns(front) + if last == [] then [] else [last];
    }
  }

  lemma {:induction false} SkipOtherLines(before: seq<string>, rest: seq<string>)
    requires forall i :: 0 <= i < |before| ==> !Contains(ExtractPath(before[i]), "kubepods")
    ensures FirstPodLine(before + rest) == FirstPodLine(rest)
  {
    hide Contains, ExtractPath, ParsePath;
    if before == [] {
      assert before + rest == rest;
    } else {
      assert (before + rest)[1..] == before[1..] + rest;
      SkipOtherLines(before[1..], rest);
    }
  }

  /** Lines that do not name a pod's path: any text without a newline, be it empty or ended by a carriage return. */
  ghost predicate OtherLines(before: seq<string>) {
    forall i :: 0 <= i < |before| ==> OneLine(before[i]) && !Contains(ExtractPath(DropReturn(before[i])), "kubepods")
  }

  /** The first line whose path mentions `kubepods` is the one that is parsed. */
  lemma FirstLineWins(before: seq<string>, line: string, after: seq<string>)
    requires OtherLines(before) && forall i :: 0 <= i < |after| ==> OneLine(after[i])
    requires OneLine(line) && line != [] && DropReturn(line) == line && Contains(ExtractPath(line), "kubepods")
    ensures ParseCgroup(Join(before + ([line] + after), '\n')) == Some(ParsePath(ExtractPath(line)))
  {
    hide OneLine, Contains, ExtractPath, ParsePath, Lines, DropReturn, Join;
    var rest := LinesFrom(before, line, after);
    SkipOtherLines(DropReturns(before), [line] + rest);
    assert ([line] + rest)[0] == line;
  }

  /** The pod's line is found wherever it stands after non-pod lines, whatever follows it. */
  lemma ContentsRoundTrip(before: seq<string>, after: seq<string>, number: string, controllers: string,
      pre: seq<string>, head: string, u: string, form: Form, slice: bool, r: Runtime, cid: string, scope: bool)
    requires GoodParts(pre, head, u, cid)
    requires ':' !in number && ':' !in controllers && '\n' !in number && '\n' !in controllers
    requires Contains(PodPath(pre, head, u, form, slice, r, cid, scope), "kubepods")
    requires OtherLines(before) && forall i :: 0 <= i < |after| ==> OneLine(after[i])
    ensures var path := PodPath(pre, head, u, form, slice, r, cid, scope);
            ParseCgroup(Join(before + ([CgroupLine(number, controllers, path)] + after), '\n')) ==
            Some(CgroupInfo(Some(Hyphenated(Lower(u))), Some(Lower(cid)), path))
  {
    hide ParsePath, PodPath, ParseCgroup, CgroupLine, OneLine, Contains, Join, DropReturn, OtherLines;
    var path := PodPath(pre, head, u, form, slice, r, cid, scope);
    PathIsOneLine(pre, head, u, form, slice, r, cid, scope);
    PodLineEnds(number, controllers, path);
    ExtractPathOf(number, controllers, path);
    FirstLineWins(before, CgroupLine(number, controllers, path), after);
    PathRoundTrip(pre, head, u, form, slice, r, cid, scope);
  }

  // ----- The layouts kubelets use

  datatype Qos = Guaranteed | Burstable | BestEffort

  function QosName(q: Qos): string {
    match q
    case Guaranteed => []
    case Burstable => "burstable"
    case BestEffort => "besteffort"
  }

  /** The segments from the root: an empty one, any outer ones, `kubepods` with an ending, and the inner ones. */
  function FromRoot(outer: seq<string>, top: string, inner: seq<string>): seq<string> {
    ([""] + outer) + (["kubepods" + top] + inner)
  }

  /** `.../kubepods.slice[/kubepods-<qos>.slice]/kubepods[-<qos>]-pod<uid>.slice/<runtime>-<cid>.scope`. */
  function SystemdInner(q: Qos): seq<string> { if q == Guaranteed then [] else ["kubepods-" + QosName(q) + ".slice"] }

  function SystemdHead(q: Qos): string { if q == Guaranteed then "kubepods-" else "kubepods-" + QosName(q) + "-" }

  /** `.../kubepods[/<qos>]/pod<uid>/[<runtime>-]<cid>[.scope]`. */
  function UnifiedInner(q: Qos): seq<string> { if q == Guaranteed then [] else [QosName(q)] }

  lemma ContainsMiddle(a: string, pat: string, b: string)
    requires pat != []
    ensures Contains(a + (pat + b), pat)
  {
    RFindIsLast(a + (pat + b), pat);
    OccursInMiddle(a, pat, b);
  }

  /** A path with a `kubepods` segment mentions it. */
  lemma NamesKubepods(outer: seq<string>, top: string, pre: seq<string>, pod: string, container: string)
    ensures Contains(Join(FromRoot(outer, top, pre) + [pod, container], '/'), "kubepods")
  {
    hide Contains, Join;
    var first, rest := [""] + outer, pre + [pod, container];
    assert FromRoot(outer, top, pre) + [pod, container] == first + (["kubepods" + top] + rest);
    JoinAppend(first, ["kubepods" + top] + rest, '/');
    JoinAppend(["kubepods" + top], rest, '/');
    JoinOne("kubepods" + top);
    var a, b := Join(first, '/') + ['/'], top + (['/'] + Join(rest, '/'));
    ContainsMiddle(a, "kubepods", b);
    assert Join(first, '/') + (['/'] + ("kubepods" + top + (['/'] + Join(rest, '/')))) == a + ("kubepods" + b);
  }

  lemma JoinOne(piece: string)
    ensures Join([piece], '/') == piece
  {
  }

  lemma OuterFromRoot(outer: seq<string>, top: string, inner: seq<string>)
    requires Outer(outer) && Outer(inner) && Clean(top) && |top| < 20
    ensures Outer(FromRoot(outer, top, inner))
  {
    hide ExtractPodUid;
    assert Clean("") && Clean("kubepods");
    CleanParts("kubepods", top);
    ShortSegment("");
    ShortSegment("kubepods" + top);
  }

  lemma SystemdNames(q: Qos)
    ensures Clean(".slice") && Clean(SystemdHead(q)) && Outer(SystemdInner(q))
  {
    hide ExtractPodUid;
    var name := QosName(q);
    assert Clean(name) && |name| <= 10 && Clean("kubepods-") && Clean(".slice") && Clean("-");
    CleanParts("kubepods-", name);
    CleanParts("kubepods-" + name, ".slice");
    CleanParts("kubepods-" + name, "-");
    ShortSegment("kubepods-" + name + ".slice");
  }

  lemma UnifiedNames(q: Qos)
    ensures Clean("") && Outer(UnifiedInner(q))
  {
    hide ExtractPodUid;
    ShortSegment(QosName(q));
  }

  /** A pod path below any outer segments, on its line among any others, gives the pod and the container. */
  lemma RootedLayout(outer: seq<string>, top: string, inner: seq<string>, head: string, u: string, form: Form,
      slice: bool, r: Runtime, cid: string, scope: bool, number: string, controllers: string,
      before: seq<string>, after: seq<string>)
    requires Outer(outer) && Outer(inner) && Clean(top) && |top| < 20 && Clean(head) && IsUid(u) && IsCid(cid)
    requires ':' !in number && ':' !in controllers && '\n' !in number && '\n' !in controllers
    requires OtherLines(before) && forall i :: 0 <= i < |after| ==> OneLine(after[i])
    ensures var path := PodPath(FromRoot(outer, top, inner), head, u, form, slice, r, cid, scope);
            ParseCgroup(Join(before + ([CgroupLine(number, controllers, path)] + after), '\n')) ==
            Some(CgroupInfo(Some(Hyphenated(Lower(u))), Some(Lower(cid)), path))
  {
    hide PodSegment, ContainerSegment, ParseCgroup, Join, Contains, FromRoot, Outer, OtherLines, OneLine;
    OuterFromRoot(outer, top, inner);
    NamesKubepods(outer, top, inner, PodSegment(head, u, form, slice), ContainerSegment(r, cid, scope));
    ContentsRoundTrip(before, after, number, controllers, FromRoot(outer, top, inner), head, u, form, slice, r, cid,
        scope);
  }

  /** The systemd layout, for every QoS class and runtime, below any outer segments and among any other lines. */
  lemma SystemdLayout(outer: seq<string>, q: Qos, u: string, r: Runtime, cid: string, number: string,
      controllers: string, before: seq<string>, after: seq<string>)
    requires Outer(outer) && IsUid(u) && IsCid(cid)
    requires ':' !in number && ':' !in controllers && '\n' !in number && '\n' !in controllers
    requires OtherLines(before) && forall i :: 0 <= i < |after| ==> OneLine(after[i])
    ensures var path := PodPath(FromRoot(outer, ".slice", SystemdInner(q)), SystemdHead(q), u, Underscore, true, r, cid,
                                true);
            ParseCgroup(Join(before + ([CgroupLine(number, controllers, path)] + after), '\n')) ==
            Some(CgroupInfo(Some(Hyphenated(Lower(u))), Some(Lower(cid)), path))
  {
    hide *;
    SystemdNames(q);
    RootedLayout(outer, ".slice", SystemdInner(q), SystemdHead(q), u, Underscore, true, r, cid, true, number,
        controllers, before, after);
  }

  /** The unified layout, whose line starts `0::`, likewise. */
  lemma UnifiedLayout(outer: seq<string>, q: Qos, u: string, r: Runtime, cid: string, scope: bool,
      before: seq<string>, after: seq<string>)
    requires Outer(outer) && IsUid(u) && IsCid(cid)
    requires OtherLines(before) && forall i :: 0 <= i < |after| ==> OneLine(after[i])
    ensures var path := PodPath(FromRoot(outer, "", UnifiedInner(q)), "", u, Hyphen, false, r, cid, scope);
            ParseCgroup(Join(before + ([CgroupLine("0", "", path)] + after), '\n')) ==
            Some(CgroupInfo(Some(Hyphenated(Lower(u))), Some(Lower(cid)), path))
  {
    hide *;
    UnifiedNames(q);
    RootedLayout(outer, "", UnifiedInner(q), "", u, Hyphen, false, r, cid, scope, "0", "", before, after);
  }
}
