/**
 The keys of idempotency/idempotency.go: a scope is normalised and its five parts go
 into SHA-256 with length prefixes.  The digest, and the path escaping of net/url,
 are functions given from outside.
 */
module StorageKeys {
  import opened Wrappers
  import Decimal
  import Text

  const MAX_KEY_LENGTH := 255
  const HASH_PREFIX := "sha256:"

  datatype Scope = Scope(tenant: string, principal: string, method_: string, path: string, key: string)

  datatype Error = InvalidKey | InvalidScope

  // ---------- The byte stream under the hash ----------

  // One part: its length in decimal, a colon, its bytes and a zero byte.
  function Frame(part: string): string {
    Decimal.Print(|part|) + ":" + part + "\0"
  }

  function Stream(parts: seq<string>): string {
    if parts == [] then [] else Frame(parts[0]) + Stream(parts[1..])
  }

  lemma {:induction false} StreamAppend(parts: seq<string>, part: string)
    ensures Stream(parts + [part]) == Stream(parts) + Frame(part)
  {
    if parts == [] {
      assert [part][1..] == [] && (parts + [part]) == [part];
    } else {
      assert (parts + [part])[1..] == parts[1..] + [part];
      StreamAppend(parts[1..], part);
    }
  }

  lemma FramedForm(head: string, part: string)
    requires ':' !in head
    ensures
      var f := head + ":" + part + "\0";
      Text.IndexByte(f, ':') == |head| && f[..|head|] == head && f[|head| + 1..] == part + "\0"
  {
    assert head + ":" + part + "\0" == head + [':'] + (part + "\0");
    Text.CutAtFirst(head, part + "\0", ':');
  }

  /** A part is written with its length before the first colon, and a zero byte after it. */
  lemma FrameForm(part: string)
    ensures
      var f := Frame(part);
      var colon := Text.IndexByte(f, ':');
      && colon >= 0 && f[..colon] == Decimal.Print(|part|) && f[colon + 1..] == part + "\0"
  {
    Decimal.PrintAvoids(|part|, ':');
    FramedForm(Decimal.Print(|part|), part);
  }

  /** The writes of the loop are the stream of all parts. */
  method WriteParts(parts: seq<string>) returns (written: string)
    ensures written == Stream(parts)
  {
    written := "";
    for i := 0 to |parts|
      invariant written == Stream(parts[..i])
    {
      StreamAppend(parts[..i], parts[i]);
      assert parts[..i + 1] == parts[..i] + [parts[i]];
      var length := Decimal.Print(|parts[i]|);
      written := written + (length + ":");
      written := written + parts[i];
      written := written + "\0";
      assert written == Stream(parts[..i]) + Frame(parts[i]);
    }
    assert parts[..|parts|] == parts;
  }

  // The first frame can be read off a stream only one way.
  lemma FrameUnique(a: string, s: string, b: string, t: string)
    requires Frame(a) + s == Frame(b) + t
    ensures a == b && s == t
  {
    Decimal.PrintAvoids(|a|, ':');
    Decimal.PrintAvoids(|b|, ':');
    assert Frame(a) + s == Decimal.Print(|a|) + [':'] + (a + "\0" + s);
    assert Frame(b) + t == Decimal.Print(|b|) + [':'] + (b + "\0" + t);
    Text.HeadUnique(Decimal.Print(|a|), a + "\0" + s, Decimal.Print(|b|), b + "\0" + t, ':');
    Decimal.PrintInjective(|a|, |b|);
    var rest := a + "\0" + s;
    assert a == rest[..|a|] && b == rest[..|b|];
    assert s == rest[|a| + 1..] && t == rest[|b| + 1..];
  }

  /** Different lists of parts give different streams. */
  lemma {:induction false} StreamInjective(a: seq<string>, b: seq<string>)
    requires Stream(a) == Stream(b)
    ensures a == b
  {
    if a != [] && b != [] {
      FrameUnique(a[0], Stream(a[1..]), b[0], Stream(b[1..]));
      StreamInjective(a[1..], b[1..]);
      assert a == [a[0]] + a[1..] && b == [b[0]] + b[1..];
    }
  }

  // ---------- Normalisation ----------

  predicate IsControl(c: char) {
    c < ' ' || c == '\U{7f}'
  }

  // The white space and control characters a key must not contain.
  predicate CleanKey(s: string) {
    && 0 < |s| <= MAX_KEY_LENGTH
    && forall i | 0 <= i < |s| :: !IsControl(s[i]) && !Text.IsSpace(s[i])
  }

  function NormalizeKey(raw: string): Result<string, Error> {
    var key := Text.TrimSpace(raw);
    if CleanKey(key) then Ok(key) else Err(InvalidKey)
  }

  // 1 to 255 bytes above the space character, none of them DEL.
  predicate VisibleKey(s: string) {
    1 <= |s| <= 255 && forall i | 0 <= i < |s| :: s[i] > ' ' && s[i] != '\U{7f}'
  }

  lemma CleanIffVisible(s: string)
    ensures CleanKey(s) <==> VisibleKey(s)
  {
  }

  /** A key is accepted exactly when, white space around it aside, it is visible; accepting it again changes nothing. */
  lemma NormalizeKeyAccepts(raw: string)
    ensures NormalizeKey(raw).Ok? <==>
            exists left, key, right ::
              raw == left + key + right && Text.Blank(left) && Text.Blank(right) && VisibleKey(key)
    ensures NormalizeKey(raw).Ok? ==> NormalizeKey(NormalizeKey(raw).value) == NormalizeKey(raw)
  {
    var l, r := Text.TrimSplits(raw);
    Text.TrimTrimmed(raw);
    CleanIffVisible(Text.TrimSpace(raw));
    if NormalizeKey(raw).Ok? {
      assert raw == l + NormalizeKey(raw).value + r;
    }
    forall left, key, right | raw == left + key + right && Text.Blank(left) && Text.Blank(right) && VisibleKey(key)
      ensures NormalizeKey(raw) == Ok(key)
    {
      CleanIffVisible(key);
      Text.TrimOf(left, key, right);
    }
  }

  // `escape` is the escaped path of a parsed URL, None when the text does not parse or the path is empty.
  function NormalizePath(escape: string -> Option<string>, raw: string): string {
    var path := Text.TrimSpace(raw);
    if path == "" then ""
    else
      var p := if escape(path).Some? then escape(path).value else path;
      if Text.HasPrefix(p, "/") then p else "/" + p
  }

  function NormalizeScope(escape: string -> Option<string>, s: Scope): Result<Scope, Error> {
    match NormalizeKey(s.key)
    case Err(e) => Err(e)
    case Ok(key) =>
      var n := Scope(Text.TrimSpace(s.tenant), Text.TrimSpace(s.principal),
                     Text.ToUpper(Text.TrimSpace(s.method_)), NormalizePath(escape, s.path), key);
      if n.tenant == "" || n.principal == "" || n.method_ == "" || n.path == "" then Err(InvalidScope) else Ok(n)
  }

  /** A path is normalised to nothing exactly when it is blank, and otherwise to the escaped path behind one slash. */
  lemma NormalizedPath(escape: string -> Option<string>, raw: string)
    ensures NormalizePath(escape, raw) == "" <==> Text.Blank(raw)
    ensures
      var path, n := Text.TrimSpace(raw), NormalizePath(escape, raw);
      var escaped := if escape(path).Some? then escape(path).value else path;
      path != "" ==> n == if escaped != "" && escaped[0] == '/' then escaped else "/" + escaped
  {
    Text.TrimSpaceBlank(raw);
  }

  /** A scope is accepted exactly when its key is and no other part is blank; a bad key is reported first. */
  lemma ScopeAcceptedIff(escape: string -> Option<string>, s: Scope)
    ensures
      var blank := Text.Blank(s.tenant) || Text.Blank(s.principal) || Text.Blank(s.method_) || Text.Blank(s.path);
      && (NormalizeScope(escape, s).Ok? <==> NormalizeKey(s.key).Ok? && !blank)
      && (NormalizeScope(escape, s) == Err(InvalidKey) <==> NormalizeKey(s.key).Err?)
  {
    Text.TrimSpaceBlank(s.tenant);
    Text.TrimSpaceBlank(s.principal);
    Text.TrimSpaceBlank(s.method_);
    NormalizedPath(escape, s.path);
    assert |Text.ToUpper(Text.TrimSpace(s.method_))| == |Text.TrimSpace(s.method_)|;
  }

  /** Accepted scopes normalise alike exactly when each part does: up to blank text, for the method also up to case. */
  lemma ScopesNormaliseAlikeIff(escape: string -> Option<string>, a: Scope, b: Scope)
    requires NormalizeScope(escape, a).Ok? && NormalizeScope(escape, b).Ok?
    ensures NormalizeScope(escape, a) == NormalizeScope(escape, b) <==>
            && Text.SameUpToBlanks(a.tenant, b.tenant) && Text.SameUpToBlanks(a.principal, b.principal)
            && Text.EqualFold(Text.TrimSpace(a.method_), Text.TrimSpace(b.method_))
            && NormalizePath(escape, a.path) == NormalizePath(escape, b.path)
            && Text.SameUpToBlanks(a.key, b.key)
  {
    Text.TrimSame(a.tenant, b.tenant);
    Text.TrimSame(a.principal, b.principal);
    Text.TrimSame(a.key, b.key);
    Text.UpperSame(Text.TrimSpace(a.method_), Text.TrimSpace(b.method_));
  }

  // ---------- Hashes and keys ----------

  function HashParts(digest: string -> string, parts: seq<string>): string {
    HASH_PREFIX + digest(Stream(parts))
  }

  function Parts(s: Scope): seq<string> {
    [s.tenant, s.principal, s.method_, s.path, s.key]
  }

  function StorageKey(digest: string -> string, escape: string -> Option<string>, s: Scope): Result<string, Error> {
    match NormalizeScope(escape, s)
    case Err(e) => Err(e)
    case Ok(n) => Ok("idem:v1:" + Text.TrimPrefix(HashParts(digest, Parts(n)), HASH_PREFIX))
  }

  /**
   Two scopes get the same storage key exactly when they normalise to the same scope,
   or their two different streams collide in the digest.
   */
  lemma StorageKeysSeparateScopes(digest: string -> string, escape: string -> Option<string>, a: Scope, b: Scope)
    requires NormalizeScope(escape, a).Ok? && NormalizeScope(escape, b).Ok?
    ensures
      var m, n := NormalizeScope(escape, a).value, NormalizeScope(escape, b).value;
      && (Stream(Parts(m)) == Stream(Parts(n)) <==> m == n)
      && (StorageKey(digest, escape, a) == StorageKey(digest, escape, b) <==>
            m == n || digest(Stream(Parts(m))) == digest(Stream(Parts(n))))
  {
    var m, n := NormalizeScope(escape, a).value, NormalizeScope(escape, b).value;
    if Stream(Parts(m)) == Stream(Parts(n)) {
      StreamInjective(Parts(m), Parts(n));
      assert forall i | 0 <= i < 5 :: Parts(m)[i] == Parts(n)[i];
    }
    var p, q := digest(Stream(Parts(m))), digest(Stream(Parts(n)));
    assert Text.TrimPrefix(HASH_PREFIX + p, HASH_PREFIX) == p && Text.TrimPrefix(HASH_PREFIX + q, HASH_PREFIX) == q;
    assert p == ("idem:v1:" + p)[8..] && q == ("idem:v1:" + q)[8..];
  }

  /** The key of an accepted scope is "idem:v1:" and the digest of its five normalised parts in order. */
  lemma StorageKeyForm(digest: string -> string, escape: string -> Option<string>, s: Scope)
    requires NormalizeScope(escape, s).Ok?
    ensures
      var m, path := Text.ToUpper(Text.TrimSpace(s.method_)), NormalizePath(escape, s.path);
      StorageKey(digest, escape, s) == Ok("idem:v1:" + digest(
        Frame(Text.TrimSpace(s.tenant)) + Frame(Text.TrimSpace(s.principal)) + Frame(m) + Frame(path)
        + Frame(Text.TrimSpace(s.key))))
  {
    var n := NormalizeScope(escape, s).value;
    StreamOfFive(n.tenant, n.principal, n.method_, n.path, n.key);
    var d := digest(Stream(Parts(n)));
    assert Text.TrimPrefix(HASH_PREFIX + d, HASH_PREFIX) == d;
  }

  lemma StreamOfThree(a: string, b: string, c: string)
    ensures Stream([a, b, c]) == Frame(a) + Frame(b) + Frame(c)
  {
    assert [] + [a] == [a] && [a] + [b] == [a, b] && [a, b] + [c] == [a, b, c];
    StreamAppend([], a);
    StreamAppend([a], b);
    StreamAppend([a, b], c);
    assert Stream([a]) == Frame(a);
  }

  lemma StreamOfFive(a: string, b: string, c: string, d: string, e: string)
    ensures Stream([a, b, c, d, e]) == Frame(a) + Frame(b) + Frame(c) + Frame(d) + Frame(e)
  {
    assert [a, b, c] + [d] == [a, b, c, d] && [a, b, c, d] + [e] == [a, b, c, d, e];
    StreamOfThree(a, b, c);
    StreamAppend([a, b, c], d);
    StreamAppend([a, b, c, d], e);
  }

  function RequestParts(digest: string -> string, escape: string -> Option<string>,
                        method_: string, path: string, body: string): seq<string> {
    [Text.ToUpper(Text.TrimSpace(method_)), NormalizePath(escape, path), HASH_PREFIX + digest(body)]
  }

  // The request hash: method, path and the hash of the body.
  function RequestHash(digest: string -> string, escape: string -> Option<string>,
                       method_: string, path: string, body: string): string {
    HashParts(digest, RequestParts(digest, escape, method_, path, body))
  }

  /** Requests with the same method up to blanks and case, paths that normalise alike and one body have one hash. */
  lemma RequestHashesAgree(digest: string -> string, escape: string -> Option<string>,
                           m1: string, p1: string, m2: string, p2: string, body: string)
    requires Text.EqualFold(Text.TrimSpace(m1), Text.TrimSpace(m2))
    requires NormalizePath(escape, p1) == NormalizePath(escape, p2)
    ensures RequestHash(digest, escape, m1, p1, body) == RequestHash(digest, escape, m2, p2, body)
  {
    Text.UpperSame(Text.TrimSpace(m1), Text.TrimSpace(m2));
  }

  /** The hash is over three parts: the method in upper case, the normalised path and the hash of the body. */
  lemma RequestHashForm(digest: string -> string, escape: string -> Option<string>,
                        method_: string, path: string, body: string)
    ensures RequestHash(digest, escape, method_, path, body) == "sha256:" + digest(
              Frame(Text.ToUpper(Text.TrimSpace(method_))) + Frame(NormalizePath(escape, path))
              + Frame("sha256:" + digest(body)))
  {
    StreamOfThree(Text.ToUpper(Text.TrimSpace(method_)), NormalizePath(escape, path), HASH_PREFIX + digest(body));
  }

  predicate Collide(digest: string -> string, s: string, t: string) {
    s != t && digest(s) == digest(t)
  }

  /** Equal request hashes mean equal method, path and body, unless the two bodies or the two streams collide. */
  lemma RequestHashSeparates(digest: string -> string, escape: string -> Option<string>,
                             m1: string, p1: string, b1: string, m2: string, p2: string, b2: string)
    requires RequestHash(digest, escape, m1, p1, b1) == RequestHash(digest, escape, m2, p2, b2)
    ensures
      var a, b := RequestParts(digest, escape, m1, p1, b1), RequestParts(digest, escape, m2, p2, b2);
      || Collide(digest, b1, b2) || Collide(digest, Stream(a), Stream(b))
      || (a[0] == b[0] && a[1] == b[1] && b1 == b2)
  {
    var a, b := RequestParts(digest, escape, m1, p1, b1), RequestParts(digest, escape, m2, p2, b2);
    assert digest(Stream(a)) == HashParts(digest, a)[7..] && digest(Stream(b)) == HashParts(digest, b)[7..];
    if Stream(a) == Stream(b) {
      StreamInjective(a, b);
      assert digest(b1) == a[2][7..] && digest(b2) == b[2][7..];
    }
  }
}
