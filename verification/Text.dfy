/**
 Byte-string operations of Go's `strings` package used by the codecs: splitting,
 joining, trimming and white-space fields.  A `char` stands for one byte, and
 white space is the ASCII white space of `unicode.IsSpace`.
 */
module Text {

  predicate IsSpace(c: char) {
    c == ' ' || '\t' <= c <= '\r'
  }

  predicate Blank(s: string) {
    forall i | 0 <= i < |s| :: IsSpace(s[i])
  }

  predicate NoSpace(s: string) {
    forall i | 0 <= i < |s| :: !IsSpace(s[i])
  }

  predicate HasSuffix(s: string, suffix: string) {
    |suffix| <= |s| && s[|s| - |suffix|..] == suffix
  }

  predicate HasPrefix(s: string, prefix: string) {
    prefix <= s
  }

  function TrimPrefix(s: string, prefix: string): string {
    if prefix <= s then s[|prefix|..] else s
  }

  function Upper(c: char): char {
    if 'a' <= c <= 'z' then c - 'a' + 'A' else c
  }

  function ToUpper(s: string): string {
    seq(|s|, i requires 0 <= i < |s| => Upper(s[i]))
  }

  predicate IsHexDigit(c: char) {
    '0' <= c <= '9' || 'a' <= c <= 'f' || 'A' <= c <= 'F'
  }

  // ---------- Trimming ----------

  function TrimLeft(s: string): string {
    if s != [] && IsSpace(s[0]) then TrimLeft(s[1..]) else s
  }

  function TrimRight(s: string): string {
    if s != [] && IsSpace(s[|s| - 1]) then TrimRight(s[..|s| - 1]) else s
  }

  function TrimSpace(s: string): string {
    TrimRight(TrimLeft(s))
  }

  // The text has no white space at either end.
  predicate Trimmed(s: string) {
    s != [] ==> !IsSpace(s[0]) && !IsSpace(s[|s| - 1])
  }

  lemma {:induction false} TrimLeftSplits(s: string)
    ensures |TrimLeft(s)| <= |s|
    ensures s[|s| - |TrimLeft(s)|..] == TrimLeft(s) && Blank(s[..|s| - |TrimLeft(s)|])
    ensures TrimLeft(s) != [] ==> !IsSpace(TrimLeft(s)[0])
  {
    if s != [] && IsSpace(s[0]) {
      TrimLeftSplits(s[1..]);
      var k := |s| - |TrimLeft(s)|;
      assert s[..k] == [s[0]] + s[1..][..k - 1];
    }
  }

  lemma {:induction false} TrimRightSplits(s: string)
    ensures TrimRight(s) <= s && Blank(s[|TrimRight(s)|..])
    ensures TrimRight(s) != [] ==> !IsSpace(TrimRight(s)[|TrimRight(s)| - 1])
  {
    if s != [] && IsSpace(s[|s| - 1]) {
      var init := s[..|s| - 1];
      TrimRightSplits(init);
      assert s[|TrimRight(s)|..] == init[|TrimRight(s)|..] + [s[|s| - 1]];
    }
  }

  /** Trimming cuts blank text off both ends and nothing else. */
  lemma TrimSplits(s: string) returns (left: string, right: string)
    ensures s == left + TrimSpace(s) + right
    ensures Blank(left) && Blank(right) && Trimmed(TrimSpace(s))
  {
    var t := TrimLeft(s);
    TrimLeftSplits(s);
    TrimRightSplits(t);
    left, right := s[..|s| - |t|], t[|TrimRight(t)|..];
  }

  lemma {:induction false} TrimRightBlank(s: string)
    requires Blank(s)
    ensures TrimRight(s) == []
  {
    if s != [] {
      TrimRightBlank(s[..|s| - 1]);
    }
  }

  lemma TrimSpaceBlank(s: string)
    ensures TrimSpace(s) == [] <==> Blank(s)
  {
    TrimLeftSplits(s);
    TrimRightSplits(TrimLeft(s));
    if Blank(s) {
      TrimRightBlank(TrimLeft(s));
    }
  }

  lemma TrimTrimmed(s: string)
    ensures TrimSpace(s) == s <==> Trimmed(s)
    ensures TrimSpace(TrimSpace(s)) == TrimSpace(s)
  {
    var _, _ := TrimSplits(s);
  }

  lemma {:induction false} TrimLeftOf(left: string, s: string)
    requires Blank(left) && s != [] && !IsSpace(s[0])
    ensures TrimLeft(left + s) == s
  {
    if left == [] {
      assert left + s == s;
    } else {
      assert (left + s)[1..] == left[1..] + s;
      TrimLeftOf(left[1..], s);
    }
  }

  lemma {:induction false} TrimRightOf(s: string, right: string)
    requires Blank(right) && s != [] && !IsSpace(s[|s| - 1])
    ensures TrimRight(s + right) == s
  {
    if right == [] {
      assert s + right == s;
    } else {
      assert (s + right)[..|s + right| - 1] == s + right[..|right| - 1];
      TrimRightOf(s, right[..|right| - 1]);
    }
  }

  /** Trimming takes blank text off both ends of a trimmed text. */
  lemma TrimOf(left: string, s: string, right: string)
    requires Blank(left) && Blank(right) && s != [] && Trimmed(s)
    ensures TrimSpace(left + s + right) == s
  {
    assert left + s + right == left + (s + right);
    TrimLeftOf(left, s + right);
    TrimRightOf(s, right);
  }

  // The text is `core` with blank text around it.
  ghost predicate Pads(s: string, core: string) {
    exists left, right :: Blank(left) && Blank(right) && s == left + core + right
  }

  // The texts differ at most in blank text at their ends.
  ghost predicate SameUpToBlanks(a: string, b: string) {
    exists core :: Pads(a, core) && Pads(b, core)
  }

  lemma PadsTrim(s: string, core: string)
    requires Pads(s, core)
    ensures TrimSpace(s) == TrimSpace(core)
  {
    var left, right :| Blank(left) && Blank(right) && s == left + core + right;
    var l, r := TrimSplits(core);
    var t := TrimSpace(core);
    assert s == (left + l) + t + (r + right);
    if t == [] {
      TrimSpaceBlank(s);
    } else {
      TrimOf(left + l, t, r + right);
    }
  }

  /** Trimming makes two texts equal exactly when they differ in blank text at their ends only. */
  lemma TrimSame(a: string, b: string)
    ensures TrimSpace(a) == TrimSpace(b) <==> SameUpToBlanks(a, b)
  {
    var l, r := TrimSplits(a);
    var m, s := TrimSplits(b);
    assert Pads(a, TrimSpace(a)) && Pads(b, TrimSpace(b));
    if SameUpToBlanks(a, b) {
      var core :| Pads(a, core) && Pads(b, core);
      PadsTrim(a, core);
      PadsTrim(b, core);
    }
  }

  // The same letter in either case, or the same character.
  predicate SameLetter(c: char, d: char) {
    || c == d
    || ('a' <= c <= 'z' && d as int == c as int - 32)
    || ('a' <= d <= 'z' && c as int == d as int - 32)
  }

  predicate EqualFold(a: string, b: string) {
    |a| == |b| && forall i | 0 <= i < |a| :: SameLetter(a[i], b[i])
  }

  /** Upper case makes two texts equal exactly when they differ in case only. */
  lemma UpperSame(a: string, b: string)
    ensures ToUpper(a) == ToUpper(b) <==> EqualFold(a, b)
  {
    var x, y := ToUpper(a), ToUpper(b);
    assert |x| == |a| && |y| == |b|;
    assert forall i | 0 <= i < |a| :: x[i] == Upper(a[i]);
    assert forall i | 0 <= i < |b| :: y[i] == Upper(b[i]);
    if x == y {
      forall i | 0 <= i < |a|
        ensures SameLetter(a[i], b[i])
      {
        assert x[i] == y[i];
      }
    }
  }

  // ---------- Splitting and joining ----------

  function Split(s: string, sep: char): (parts: seq<string>)
    ensures |parts| >= 1
  {
    if s == [] then [[]]
    else
      var rest := Split(s[1..], sep);
      if s[0] == sep then [[]] + rest else [[s[0]] + rest[0]] + rest[1..]
  }

  function Join(parts: seq<string>, sep: char): string {
    if parts == [] then [] else if |parts| == 1 then parts[0] else parts[0] + [sep] + Join(parts[1..], sep)
  }

  lemma {:induction false} SplitWithout(s: string, sep: char)
    requires sep !in s
    ensures Split(s, sep) == [s]
  {
    if s != [] {
      SplitWithout(s[1..], sep);
      assert [s[0]] + s[1..] == s;
    }
  }

  lemma {:induction false} SplitAtFirst(a: string, b: string, sep: char)
    requires sep !in a
    ensures Split(a + [sep] + b, sep) == [a] + Split(b, sep)
  {
    var s := a + [sep] + b;
    if a == [] {
      assert s[1..] == b;
    } else {
      assert s[1..] == a[1..] + [sep] + b;
      SplitAtFirst(a[1..], b, sep);
      assert [s[0]] + a[1..] == a;
    }
  }

  lemma {:induction false} SplitConcat(a: string, b: string, sep: char)
    ensures Split(a + [sep] + b, sep) == Split(a, sep) + Split(b, sep)
  {
    var s := a + [sep] + b;
    if a == [] {
      assert s[1..] == b;
    } else {
      assert s[1..] == a[1..] + [sep] + b;
      SplitConcat(a[1..], b, sep);
    }
  }

  /** Joining undoes splitting, and the parts have no separator. */
  lemma {:induction false} JoinOfSplit(s: string, sep: char)
    ensures Join(Split(s, sep), sep) == s
    ensures forall i | 0 <= i < |Split(s, sep)| :: sep !in Split(s, sep)[i]
  {
    if s != [] {
      JoinOfSplit(s[1..], sep);
      var rest := Split(s[1..], sep);
      if s[0] == sep {
        assert Split(s, sep)[1..] == rest;
      } else {
        assert Split(s, sep)[1..] == rest[1..];
      }
    }
  }

  lemma SplitInjective(a: string, b: string, sep: char)
    requires Split(a, sep) == Split(b, sep)
    ensures a == b
  {
    JoinOfSplit(a, sep);
    JoinOfSplit(b, sep);
  }

  /** A separator-free head followed by the separator can be read off only one way. */
  lemma HeadUnique(a: string, b: string, c: string, d: string, sep: char)
    requires sep !in a && sep !in c
    requires a + [sep] + b == c + [sep] + d
    ensures a == c && b == d
  {
    var s := a + [sep] + b;
    SplitAtFirst(a, b, sep);
    SplitAtFirst(c, d, sep);
    assert a == Split(s, sep)[0] && c == Split(s, sep)[0];
    assert b == s[|a| + 1..] && d == s[|c| + 1..];
  }

  // ---------- White-space fields ----------

  // The maximal runs of non-space text, in order.
  function Fields(s: string): seq<string> {
    if s == [] then []
    else if IsSpace(s[0]) then Fields(s[1..])
    else
      var rest := Fields(s[1..]);
      if |s| == 1 || IsSpace(s[1]) || rest == [] then [[s[0]]] + rest
      else [[s[0]] + rest[0]] + rest[1..]
  }

  lemma {:induction false} FieldsAreWords(s: string)
    ensures forall i | 0 <= i < |Fields(s)| :: Fields(s)[i] != [] && NoSpace(Fields(s)[i])
    ensures Fields(s) == [] <==> Blank(s)
  {
    if s != [] {
      FieldsAreWords(s[1..]);
    }
  }

  lemma {:induction false} FieldsOfWord(w: string)
    requires w != [] && NoSpace(w)
    ensures Fields(w) == [w]
  {
    if |w| > 1 {
      FieldsOfWord(w[1..]);
      assert [w[0]] + w[1..] == w;
    } else {
      assert w == [w[0]];
    }
  }

  lemma {:induction false} FieldsAfterWord(w: string, c: char, rest: string)
    requires w != [] && NoSpace(w) && IsSpace(c)
    ensures Fields(w + [c] + rest) == [w] + Fields(rest)
  {
    var s := w + [c] + rest;
    if |w| == 1 {
      assert s[1..] == [c] + rest;
      assert ([c] + rest)[1..] == rest;
      assert Fields(s[1..]) == Fields(rest) && w == [s[0]];
    } else {
      assert s[1..] == w[1..] + [c] + rest;
      FieldsAfterWord(w[1..], c, rest);
      assert [w[0]] + w[1..] == w;
    }
  }

  lemma {:induction false} FieldsOfJoin(words: seq<string>)
    requires forall i | 0 <= i < |words| :: words[i] != [] && NoSpace(words[i])
    ensures Fields(Join(words, ' ')) == words
  {
    if |words| == 1 {
      FieldsOfWord(words[0]);
    } else if |words| > 1 {
      FieldsAfterWord(words[0], ' ', Join(words[1..], ' '));
      FieldsOfJoin(words[1..]);
    }
  }

  // Every character of every field occurs in the text, and the rest of the text is white space.
  lemma {:induction false} FieldsCover(s: string, c: char)
    requires !IsSpace(c)
    ensures c in s <==> exists i | 0 <= i < |Fields(s)| :: c in Fields(s)[i]
  {
    if s != [] {
      FieldsCover(s[1..], c);
      FieldsAreWords(s[1..]);
      var f, rest := Fields(s), Fields(s[1..]);
      assert c in s <==> c == s[0] || c in s[1..];
      if !IsSpace(s[0]) {
        if |s| == 1 || IsSpace(s[1]) || rest == [] {
          assert f[0] == [s[0]] && f[1..] == rest;
          assert forall i | 0 <= i < |rest| :: f[i + 1] == rest[i];
        } else {
          assert f[0] == [s[0]] + rest[0];
          assert forall i | 1 <= i < |rest| :: f[i] == rest[i];
          if c == s[0] {
            assert c in f[0];
          } else if c in s[1..] {
            var i :| 0 <= i < |rest| && c in rest[i];
            assert c in f[i];
          }
        }
      }
    }
  }

  lemma {:induction false} FieldsThenSpace(s: string, c: char)
    requires IsSpace(c)
    ensures Fields(s + [c]) == Fields(s)
  {
    if s == [] {
      assert [c][1..] == [] && s + [c] == [c];
    } else {
      assert (s + [c])[1..] == s[1..] + [c];
      FieldsThenSpace(s[1..], c);
      if |s| == 1 {
        assert s[1..] + [c] == [c] && (s + [c])[1] == c && Fields(s[1..]) == [];
      } else {
        assert (s + [c])[1] == s[1];
      }
    }
  }

  /** Blank text after the last field does not matter. */
  lemma {:induction false} FieldsThenBlank(s: string, blank: string)
    requires Blank(blank)
    ensures Fields(s + blank) == Fields(s)
  {
    if blank == [] {
      assert s + blank == s;
    } else {
      var init := blank[..|blank| - 1];
      assert s + blank == (s + init) + [blank[|blank| - 1]];
      FieldsThenSpace(s + init, blank[|blank| - 1]);
      FieldsThenBlank(s, init);
    }
  }

  lemma {:induction false} TrimRightAppend(a: string, b: string)
    requires !Blank(b)
    ensures TrimRight(a + b) == a + TrimRight(b)
  {
    var last := b[|b| - 1];
    assert (a + b)[|a + b| - 1] == last;
    if IsSpace(last) {
      assert (a + b)[..|a + b| - 1] == a + b[..|b| - 1];
      assert b == b[..|b| - 1] + [last];
      TrimRightAppend(a, b[..|b| - 1]);
    }
  }

  // The first position of a character.
  function IndexByte(s: string, c: char): (i: int)
    ensures -1 <= i < |s|
    ensures i == -1 <==> c !in s
    ensures i >= 0 ==> s[i] == c && c !in s[..i]
  {
    if s == [] then -1
    else if s[0] == c then 0
    else
      var i := IndexByte(s[1..], c);
      assert i >= 0 ==> s[..i + 1] == [s[0]] + s[1..][..i];
      if i < 0 then -1 else i + 1
  }

  lemma {:induction false} FirstAt(s: string, head: string, c: char)
    requires c !in head && head + [c] <= s
    ensures IndexByte(s, c) == |head|
  {
    if head != [] {
      assert s[0] == head[0];
      assert head[1..] + [c] == (head + [c])[1..];
      FirstAt(s[1..], head[1..], c);
    }
  }

  lemma CutAtFirst(head: string, tail: string, c: char)
    requires c !in head
    ensures
      var s := head + [c] + tail;
      IndexByte(s, c) == |head| && s[..|head|] == head && s[|head| + 1..] == tail
  {
    FirstAt(head + [c] + tail, head, c);
  }
}
