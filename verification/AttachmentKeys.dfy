/**
 Attachment keys (server-storage.ts, server-attachments.ts, server-capture.ts): how a raw
 key becomes a path below the attachment root, and why every module agrees on that path.
 */
module AttachmentKeys {
  import opened Wrappers

  const ATTACHMENT_PATH_MAX_SEGMENTS := 16
  const ATTACHMENT_PATH_MAX_LENGTH := 512
  const ATTACHMENTS_PREFIX := "attachments/"

  // ---- decodeAttachmentPath ----

  function HexDigit(c: char): Option<nat> {
    if '0' <= c <= '9' then Some(c as nat - '0' as nat)
    else if 'a' <= c <= 'f' then Some(c as nat - 'a' as nat + 10)
    else if 'A' <= c <= 'F' then Some(c as nat - 'A' as nat + 10)
    else None
  }

  /**
   decodeURIComponent, up to the characters that the allowlist below would refuse: an escape of a
   byte above 0x7f either is malformed or decodes to a non-ASCII character, and both are refused.
   */
  function PercentDecoded(s: string): Option<string> {
    if s == "" then Some("")
    else if s[0] != '%' then
      match PercentDecoded(s[1..]) { case Some(rest) => Some([s[0]] + rest) case None => None }
    else if |s| < 3 || HexDigit(s[1]).None? || HexDigit(s[2]).None? then None
    else
      var code := 16 * HexDigit(s[1]).value + HexDigit(s[2]).value;
      if code >= 0x80 then None
      else match PercentDecoded(s[3..]) { case Some(rest) => Some([code as char] + rest) case None => None }
  }

  predicate IsAllowed(c: char) {
    'a' <= c <= 'z' || 'A' <= c <= 'Z' || '0' <= c <= '9' || c == '.' || c == '_' || c == '/' || c == '-'
  }

  predicate AllAllowed(s: string) { forall i :: 0 <= i < |s| ==> IsAllowed(s[i]) }

  // ---- segments ----

  function FirstSlash(s: string): (n: nat)
    ensures n <= |s|
    ensures forall i :: 0 <= i < n ==> s[i] != '/'
    ensures n < |s| ==> s[n] == '/'
  {
    if s == "" || s[0] == '/' then 0 else 1 + FirstSlash(s[1..])
  }

  /** The non-empty parts of s between slashes. */
  function Segments(s: string): seq<string>
    decreases |s|
  {
    if s == "" then []
    else if s[0] == '/' then Segments(s[1..])
    else [s[..FirstSlash(s)]] + Segments(AfterSlash(s))
  }

  function AfterSlash(s: string): (rest: string)
    requires s != ""
    ensures |rest| < |s|
  {
    var n := FirstSlash(s);
    if n == |s| then "" else s[n + 1..]
  }

  function Join(segments: seq<string>): string {
    if segments == [] then ""
    else if |segments| == 1 then segments[0]
    else segments[0] + "/" + Join(segments[1..])
  }

  predicate IsSegment(s: string) { s != "" && forall i :: 0 <= i < |s| ==> s[i] != '/' }

  predicate AreSegments(segments: seq<string>) { forall i :: 0 <= i < |segments| ==> IsSegment(segments[i]) }

  /** normalizeAttachmentRelativePath: None is the source's null. */
  function Normalize(raw: string): Option<string> {
    match PercentDecoded(raw)
    case None => None
    case Some(decoded) =>
      if decoded == "" || '%' in decoded || |decoded| > ATTACHMENT_PATH_MAX_LENGTH || !AllAllowed(decoded) then None
      else
        var segments := Segments(decoded);
        if segments == [] || |segments| > ATTACHMENT_PATH_MAX_SEGMENTS || "." in segments || ".." in segments then None
        else Some(Join(segments))
  }

  lemma {:induction false} SegmentsAreSegments(s: string)
    ensures AreSegments(Segments(s))
    decreases |s|
  {
    if s == "" {
    } else if s[0] == '/' {
      SegmentsAreSegments(s[1..]);
    } else {
      SegmentsAreSegments(AfterSlash(s));
    }
  }

  /** Joining the segments of a string never makes it longer, nor brings in new characters. */
  lemma {:induction false} JoinShrinks(s: string)
    ensures |Join(Segments(s))| <= |s|
    ensures AllAllowed(s) ==> AllAllowed(Join(Segments(s)))
    decreases |s|
  {
    if s == "" {
    } else if s[0] == '/' {
      JoinShrinks(s[1..]);
    } else {
      var rest := AfterSlash(s);
      JoinShrinks(rest);
      assert Segments(s)[1..] == Segments(rest);
      assert rest == "" ==> Segments(rest) == [];
    }
  }

  lemma {:induction false} FirstSlashOfSegment(segment: string, rest: string)
    requires IsSegment(segment) && (rest == "" || rest[0] == '/')
    ensures FirstSlash(segment + rest) == |segment|
  {
    var s := segment + rest;
    assert forall i :: 0 <= i < |segment| ==> s[i] == segment[i];
    assert rest != "" ==> s[|segment|] == '/';
  }

  lemma {:induction false} SegmentsOfJoin(segments: seq<string>)
    requires AreSegments(segments)
    ensures Segments(Join(segments)) == segments
    ensures segments != [] ==> Join(segments) != "" && Join(segments)[0] != '/'
  {
    if segments == [] {
    } else {
      var rest := if |segments| == 1 then "" else "/" + Join(segments[1..]);
      var s := Join(segments);
      assert s == segments[0] + rest;
      FirstSlashOfSegment(segments[0], rest);
      SegmentsOfJoin(segments[1..]);
      assert AfterSlash(s) == if |segments| == 1 then "" else Join(segments[1..]);
      assert s[..|segments[0]|] == segments[0];
    }
  }

  lemma {:induction false} PlainDecodesToItself(s: string)
    requires '%' !in s
    ensures PercentDecoded(s) == Some(s)
  {
    if s != "" {
      PlainDecodesToItself(s[1..]);
      assert s == [s[0]] + s[1..];
    }
  }

  /** The keys that normalization leaves alone, described without it. */
  predicate Canonical(k: string) {
    && k != "" && |k| <= ATTACHMENT_PATH_MAX_LENGTH && AllAllowed(k)
    && Join(Segments(k)) == k
    && 0 < |Segments(k)| <= ATTACHMENT_PATH_MAX_SEGMENTS
    && "." !in Segments(k) && ".." !in Segments(k)
  }

  lemma CanonicalIsFixed(k: string)
    requires Canonical(k)
    ensures Normalize(k) == Some(k)
  {
    PlainDecodesToItself(k);
  }

  /** Normalization is idempotent: its range is exactly the canonical keys. */
  lemma NormalizeIsIdempotent(raw: string, k: string)
    requires Normalize(raw) == Some(k)
    ensures Canonical(k) && Normalize(k) == Some(k)
  {
    var decoded := PercentDecoded(raw).value;
    SegmentsAreSegments(decoded);
    JoinShrinks(decoded);
    SegmentsOfJoin(Segments(decoded));
    CanonicalIsFixed(k);
  }

  // ---- path.resolve(path.join(root, key)) ----

  function Resolve(at: seq<string>, segments: seq<string>): seq<string>
    decreases |segments|
  {
    if segments == [] then at
    else if segments[0] == "." || segments[0] == "" then Resolve(at, segments[1..])
    else if segments[0] == ".." then Resolve(if at == [] then [] else at[..|at| - 1], segments[1..])
    else Resolve(at + [segments[0]], segments[1..])
  }

  lemma {:induction false} PlainSegmentsStack(at: seq<string>, segments: seq<string>)
    requires AreSegments(segments) && "." !in segments && ".." !in segments
    ensures Resolve(at, segments) == at + segments
    decreases |segments|
  {
    if segments != [] {
      PlainSegmentsStack(at + [segments[0]], segments[1..]);
      assert at + [segments[0]] + segments[1..] == at + segments;
    }
  }

  /** A normalized key, joined to any root, resolves strictly below that root. */
  lemma NormalizedStaysUnderRoot(root: seq<string>, raw: string, k: string)
    requires Normalize(raw) == Some(k)
    ensures root < Resolve(root, Segments(k))
    ensures Resolve(root, Segments(k)) == root + Segments(k)
  {
    NormalizeIsIdempotent(raw, k);
    SegmentsAreSegments(k);
    PlainSegmentsStack(root, Segments(k));
  }

  // ---- the three readers of a cloud key ----

  /** captureAudioStoragePath, and the prefix rule inside the garbage collector. */
  function WithoutPrefix(key: string): string {
    if ATTACHMENTS_PREFIX <= key then key[|ATTACHMENTS_PREFIX|..] else key
  }

  /** path.relative(...).replace(/\\/g, '/'). */
  function Slashed(s: string): (r: string)
    ensures |r| == |s|
    ensures forall i :: 0 <= i < |s| ==> r[i] == if s[i] == '\\' then '/' else s[i]
  {
    if s == "" then "" else [if s[0] == '\\' then '/' else s[0]] + Slashed(s[1..])
  }

  /** The key under which the collector looks up a file it found at this root-relative path. */
  function DiskKey(p: seq<string>): Option<string> { Normalize(Slashed(Join(p))) }

  /** A file stored for a key is looked up under that key. */
  lemma StoredFileHasItsKey(raw: string, stored: string)
    requires Normalize(raw) == Some(stored)
    ensures Segments(stored) != [] && DiskKey(Segments(stored)) == Some(stored)
  {
    NormalizeIsIdempotent(raw, stored);
    assert Slashed(stored) == stored;
  }

  /** Where a capture stores the bytes of a cloud key, relative to the attachment root. */
  function StoredKey(cloudKey: string): Option<string> { Normalize(WithoutPrefix(cloudKey)) }

  /** GET /v1/<cloudKey>: the attachment route serves the rest of the path behind /v1/attachments/. */
  function ServedKey(cloudKey: string): Option<string> {
    if ATTACHMENTS_PREFIX <= cloudKey then Normalize(cloudKey[|ATTACHMENTS_PREFIX|..]) else None
  }

  /** The root-relative paths that the garbage collector keeps for one normalized cloud key. */
  function KeptFor(normalized: string): set<string> {
    var rootRelative := WithoutPrefix(normalized);
    match Normalize(rootRelative)
    case None => {}
    case Some(canonical) => if rootRelative != normalized then {canonical, normalized} else {canonical}
  }

  /** Every root-relative path that the collector keeps for a document that references these keys. */
  ghost function KeepSet(cloudKeys: set<string>): set<string> {
    set c, p | c in cloudKeys && Normalize(c).Some? && p in KeptFor(Normalize(c).value) :: p
  }

  lemma KeepSetHas(c: string, k: string, p: string)
    requires Normalize(c) == Some(k) && p in KeptFor(k)
    ensures p in KeepSet({c})
  {
    assert c in {c};
  }

  lemma {:induction false} PrefixDecodes(prefix: string, s: string)
    requires '%' !in prefix
    ensures PercentDecoded(prefix + s) == match PercentDecoded(s) case Some(d) => Some(prefix + d) case None => None
  {
    if prefix == "" {
      assert prefix + s == s;
      assert PercentDecoded(s).Some? ==> prefix + PercentDecoded(s).value == PercentDecoded(s).value;
    } else {
      PrefixDecodes(prefix[1..], s);
      assert (prefix + s)[1..] == prefix[1..] + s;
      assert PercentDecoded(s).Some? ==> [prefix[0]] + (prefix[1..] + PercentDecoded(s).value) == prefix + PercentDecoded(s).value;
    }
  }

  lemma SegmentsBehindPrefix(s: string)
    ensures Segments(ATTACHMENTS_PREFIX + s) == ["attachments"] + Segments(s)
  {
    var whole := ATTACHMENTS_PREFIX + s;
    assert whole == "attachments" + ("/" + s);
    FirstSlashOfSegment("attachments", "/" + s);
    assert whole[..11] == "attachments";
    assert AfterSlash(whole) == s;
  }

  lemma {:induction false} JoinBehindPrefix(segments: seq<string>)
    requires segments != []
    ensures Join(["attachments"] + segments) == ATTACHMENTS_PREFIX + Join(segments)
  {
    assert (["attachments"] + segments)[1..] == segments;
    assert "attachments" + "/" + Join(segments) == ATTACHMENTS_PREFIX + Join(segments);
  }

  /** A prefixed key normalizes to the prefix and its stored key. */
  lemma PrefixedNormalizes(cloudKey: string, k: string, stored: string)
    requires ATTACHMENTS_PREFIX <= cloudKey && Normalize(cloudKey) == Some(k) && StoredKey(cloudKey) == Some(stored)
    ensures k == ATTACHMENTS_PREFIX + stored
  {
    hide PercentDecoded, Segments, Join;
    var rest := cloudKey[|ATTACHMENTS_PREFIX|..];
    assert cloudKey == ATTACHMENTS_PREFIX + rest;
    PrefixDecodes(ATTACHMENTS_PREFIX, rest);
    SegmentsBehindPrefix(PercentDecoded(rest).value);
    JoinBehindPrefix(Segments(PercentDecoded(rest).value));
  }

  /**
   For every key that can be stored, the collector keeps the stored path exactly when the whole
   key, prefix included, still normalizes.
   */
  lemma StoredKeyIsKeptIffKeyNormalizes(cloudKey: string, stored: string)
    requires StoredKey(cloudKey) == Some(stored)
    ensures stored in KeepSet({cloudKey}) <==> Normalize(cloudKey).Some?
    ensures ServedKey(cloudKey).Some? ==> ServedKey(cloudKey) == StoredKey(cloudKey)
  {
    if Normalize(cloudKey).Some? {
      KeptForStored(cloudKey, Normalize(cloudKey).value, stored);
      KeepSetHas(cloudKey, Normalize(cloudKey).value, stored);
    }
  }

  lemma KeptForStored(cloudKey: string, k: string, stored: string)
    requires StoredKey(cloudKey) == Some(stored) && Normalize(cloudKey) == Some(k)
    ensures stored in KeptFor(k)
  {
    NormalizeIsIdempotent(WithoutPrefix(cloudKey), stored);
    if ATTACHMENTS_PREFIX <= cloudKey {
      PrefixedNormalizes(cloudKey, k, stored);
      assert WithoutPrefix(k) == stored;
    } else {
      assert k == stored;
      if ATTACHMENTS_PREFIX <= k {
        TailOfCanonical(k);
      }
    }
  }

  /** Dropping the prefix of a canonical key leaves a canonical key. */
  lemma TailOfCanonical(k: string)
    requires Canonical(k) && ATTACHMENTS_PREFIX <= k
    ensures Normalize(WithoutPrefix(k)) == Some(WithoutPrefix(k))
  {
    var rest := k[|ATTACHMENTS_PREFIX|..];
    assert k == ATTACHMENTS_PREFIX + rest;
    SegmentsBehindPrefix(rest);
    assert Segments(rest) == Segments(k)[1..];
    assert Segments(rest) == [] ==> Segments(k) == ["attachments"];
    JoinBehindPrefix(Segments(rest));
    assert (ATTACHMENTS_PREFIX + Join(Segments(rest)))[12..] == Join(Segments(rest));
    CanonicalIsFixed(rest);
  }

  /** The name that a capture gives its audio: a generated id and the extension of its media type. */
  predicate IsCapturedName(name: string) {
    name != "" && |name| <= 100 && AllAllowed(name) && '/' !in name && name != "." && name != ".."
  }

  lemma CapturedNameIsCanonical(name: string)
    requires IsCapturedName(name)
    ensures Canonical(name) && Segments(name) == [name]
  {
    assert IsSegment(name);
    SegmentsOfJoin([name]);
  }

  lemma CapturedKeyIsCanonical(name: string)
    requires IsCapturedName(name)
    ensures Canonical(ATTACHMENTS_PREFIX + name)
  {
    CapturedNameIsCanonical(name);
    SegmentsBehindPrefix(name);
    JoinBehindPrefix([name]);
  }

  /** A captured key is stored, served and kept at one path: its own name, directly below the root. */
  lemma CapturedKeyLinesUp(name: string)
    requires IsCapturedName(name)
    ensures StoredKey(ATTACHMENTS_PREFIX + name) == ServedKey(ATTACHMENTS_PREFIX + name) == Some(name)
    ensures Normalize(ATTACHMENTS_PREFIX + name) == Some(ATTACHMENTS_PREFIX + name)
    ensures name in KeepSet({ATTACHMENTS_PREFIX + name})
    ensures Segments(name) == [name]
  {
    var key := ATTACHMENTS_PREFIX + name;
    CapturedNameIsCanonical(name);
    CapturedKeyIsCanonical(name);
    CanonicalIsFixed(name);
    CanonicalIsFixed(key);
    BehindPrefix(name);
    KeepSetHas(key, key, name);
  }

  /** The failing family: a stored path of sixteen segments leaves no room for the prefix. */
  lemma FullDepthKeyIsStoredButNotKept(rest: string)
    requires Canonical(rest) && |Segments(rest)| == ATTACHMENT_PATH_MAX_SEGMENTS
    ensures StoredKey(ATTACHMENTS_PREFIX + rest) == Some(rest)
    ensures Normalize(ATTACHMENTS_PREFIX + rest).None? && rest !in KeepSet({ATTACHMENTS_PREFIX + rest})
  {
    var cloudKey := ATTACHMENTS_PREFIX + rest;
    CanonicalIsFixed(rest);
    BehindPrefix(rest);
    TooDeep(cloudKey, rest);
  }

  lemma TooDeep(cloudKey: string, rest: string)
    requires cloudKey == ATTACHMENTS_PREFIX + rest
    requires AllAllowed(rest) && |Segments(rest)| == ATTACHMENT_PATH_MAX_SEGMENTS
    ensures Normalize(cloudKey).None?
  {
    hide PercentDecoded, Segments, Join;
    assert AllAllowed(cloudKey);
    PlainDecodesToItself(cloudKey);
    SegmentsBehindPrefix(rest);
  }

  lemma BehindPrefix(rest: string)
    ensures ATTACHMENTS_PREFIX <= ATTACHMENTS_PREFIX + rest
    ensures WithoutPrefix(ATTACHMENTS_PREFIX + rest) == rest
    ensures (ATTACHMENTS_PREFIX + rest)[|ATTACHMENTS_PREFIX|..] == rest
  {
  }

  lemma FullDepthKeyExists() returns (rest: string)
    ensures Canonical(rest) && |Segments(rest)| == ATTACHMENT_PATH_MAX_SEGMENTS
  {
    var segments := seq(16, i => "a");
    SegmentsOfJoin(segments);
    JoinOfLetters(segments);
    rest := Join(segments);
  }

  lemma {:induction false} JoinOfLetters(segments: seq<string>)
    requires forall i :: 0 <= i < |segments| ==> segments[i] == "a"
    ensures AllAllowed(Join(segments)) && |Join(segments)| <= 2 * |segments|
  {
    if |segments| > 1 {
      JoinOfLetters(segments[1..]);
    }
  }
}
