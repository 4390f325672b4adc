/** String operations shared by the two text-cleanup pipelines (the Node.js
    enrichment service and the Python generator service). Strings are
    sequences of Unicode scalar values; the whitespace sets of JavaScript's
    `trim` and Python's `strip` are given explicitly because they differ. */
module Text {

  /** `p` is a prefix of `s`. */
  predicate IsPrefix(p: string, s: string) {
    |p| <= |s| && s[..|p|] == p
  }

  /** `t` occurs in `s` starting at index `i`. */
  predicate OccursAt(s: string, t: string, i: int) {
    0 <= i && i + |t| <= |s| && s[i..i + |t|] == t
  }

  /** `t` occurs in `s` (JavaScript `s.includes(t)`, Python `t in s`). A
      prefix occurs, and nothing longer than `s` does; `ContainsOccurs`
      shows it holds exactly when `t` occurs at some index. */
  predicate Contains(s: string, t: string)
    ensures IsPrefix(t, s) ==> Contains(s, t)
    ensures Contains(s, t) ==> |t| <= |s|
    decreases |s|
  {
    IsPrefix(t, s) || (|s| > 0 && Contains(s[1..], t))
  }

  /** `Contains` is the search for an index at which `t` occurs. */
  lemma {:induction false} ContainsOccurs(s: string, t: string)
    ensures Contains(s, t) <==> exists i :: OccursAt(s, t, i)
    decreases |s|
  {
    if IsPrefix(t, s) {
      assert OccursAt(s, t, 0);
    } else if |s| > 0 {
      ContainsOccurs(s[1..], t);
      OccurrenceShift(s, t);
    }
  }

  /** When `t` is not a prefix of `s`, its occurrences in `s` are those in
      `s[1..]`, one index further. */
  lemma OccurrenceShift(s: string, t: string)
    requires |s| > 0 && !IsPrefix(t, s)
    ensures (exists i :: OccursAt(s, t, i)) <==> (exists i :: OccursAt(s[1..], t, i))
  {
    if i :| OccursAt(s, t, i) {
      assert i != 0;
      assert s[1..][i - 1..i - 1 + |t|] == s[i..i + |t|];
      assert OccursAt(s[1..], t, i - 1);
    }
    if i :| OccursAt(s[1..], t, i) {
      assert s[1..][i..i + |t|] == s[i + 1..i + 1 + |t|];
      assert OccursAt(s, t, i + 1);
    }
  }

  /** JavaScript `String.prototype.trim` removes WhiteSpace and LineTerminator
      code points (ECMA-262, sections 12.2 and 12.3). */
  predicate JsSpace(c: char) {
    c == '\t' || c == '\n' || c == '\U{000B}' || c == '\U{000C}' || c == '\r' || c == ' '
    || c == '\U{00A0}' || c == '\U{1680}' || ('\U{2000}' <= c <= '\U{200A}')
    || c == '\U{2028}' || c == '\U{2029}' || c == '\U{202F}' || c == '\U{205F}'
    || c == '\U{3000}' || c == '\U{FEFF}'
  }

  /** Python `str.strip()` with no argument removes the characters for which
      `str.isspace` holds. */
  predicate PySpace(c: char) {
    ('\t' <= c <= '\r') || ('\U{001C}' <= c <= '\U{001F}') || c == ' '
    || c == '\U{0085}' || c == '\U{00A0}' || c == '\U{1680}' || ('\U{2000}' <= c <= '\U{200A}')
    || c == '\U{2028}' || c == '\U{2029}' || c == '\U{202F}' || c == '\U{205F}'
    || c == '\U{3000}'
  }

  /** Neither end of `s` is whitespace. */
  predicate Stripped(s: string, isSpace: char -> bool) {
    |s| == 0 || (!isSpace(s[0]) && !isSpace(s[|s| - 1]))
  }

  /** Drops leading whitespace: the result is a suffix of `s`, everything
      dropped is whitespace and what is left does not start with whitespace. */
  function TrimStart(s: string, isSpace: char -> bool): (r: string)
    ensures |r| <= |s| && r == s[|s| - |r|..]
    ensures forall k :: 0 <= k < |s| - |r| ==> isSpace(s[k])
    ensures |r| > 0 ==> !isSpace(r[0])
    decreases |s|
  {
    if |s| > 0 && isSpace(s[0]) then TrimStart(s[1..], isSpace) else s
  }

  /** Drops trailing whitespace: the result is a prefix of `s`, everything
      dropped is whitespace and what is left does not end with whitespace. */
  function TrimEnd(s: string, isSpace: char -> bool): (r: string)
    ensures |r| <= |s| && r == s[..|r|]
    ensures forall k :: |r| <= k < |s| ==> isSpace(s[k])
    ensures |r| > 0 ==> !isSpace(r[|r| - 1])
    decreases |s|
  {
    if |s| > 0 && isSpace(s[|s| - 1]) then TrimEnd(s[..|s| - 1], isSpace) else s
  }

  /** `r` is the infix `s[i..j]` and everything of `s` outside it is
      whitespace. */
  predicate TrimmedTo(s: string, r: string, i: int, j: int, isSpace: char -> bool) {
    0 <= i <= j <= |s| && r == s[i..j]
    && (forall k :: 0 <= k < i ==> isSpace(s[k]))
    && (forall k :: j <= k < |s| ==> isSpace(s[k]))
  }

  /** Both `trim` and `strip`: the result is the infix of `s` left after
      removing the maximal whitespace prefix and suffix, so only whitespace
      is removed and neither end of the result is whitespace. */
  function Strip(s: string, isSpace: char -> bool): (r: string)
    ensures Stripped(r, isSpace)
    ensures |r| <= |s|
    ensures forall x :: x in r ==> x in s
    ensures exists i, j :: TrimmedTo(s, r, i, j, isSpace)
  {
    var t := TrimStart(s, isSpace);
    var r := TrimEnd(t, isSpace);
    StripInfix(s, isSpace, t, r);
    r
  }

  /** Trimming the start and then the end keeps an infix and removes only
      whitespace. */
  lemma StripInfix(s: string, isSpace: char -> bool, t: string, r: string)
    requires |t| <= |s| && t == s[|s| - |t|..] && forall k :: 0 <= k < |s| - |t| ==> isSpace(s[k])
    requires |r| <= |t| && r == t[..|r|] && forall k :: |r| <= k < |t| ==> isSpace(t[k])
    ensures TrimmedTo(s, r, |s| - |t|, |s| - |t| + |r|, isSpace)
  {
    var i := |s| - |t|;
    assert r == s[i..i + |r|];
    forall k | i + |r| <= k < |s| ensures isSpace(s[k]) {
      assert s[k] == t[k - i];
    }
  }

  /** Stripping a string that is already stripped changes nothing. */
  lemma StripStripped(s: string, isSpace: char -> bool)
    requires Stripped(s, isSpace)
    ensures Strip(s, isSpace) == s
  {
    assert TrimStart(s, isSpace) == s;
    assert TrimEnd(s, isSpace) == s;
  }

  /** `s.split(c)` in both JavaScript and Python, for a one-character
      separator: the fields between occurrences of `c`. The first field is the
      longest prefix free of `c`, and there is more than one field exactly
      when `c` occurs. */
  function Split(s: string, c: char): (r: seq<string>)
    ensures |r| >= 1
    ensures IsPrefix(r[0], s) && c !in r[0]
    ensures c in s ==> |r[0]| < |s| && s[|r[0]|] == c
    ensures |r| > 1 <==> c in s
    ensures c !in s ==> r == [s]
    ensures forall i :: 0 <= i < |r| ==> c !in r[i]
    decreases |s|
  {
    if |s| == 0 then [""]
    else
      var rest := Split(s[1..], c);
      if s[0] == c then [""] + rest
      else
        assert s == [s[0]] + s[1..];
        [[s[0]] + rest[0]] + rest[1..]
  }

  /** `sep.join(parts)`: the parts with `sep` between consecutive ones. */
  function Join(parts: seq<string>, sep: string): string
    requires |parts| >= 1
    decreases |parts|
  {
    if |parts| == 1 then parts[0] else parts[0] + sep + Join(parts[1..], sep)
  }

  /** Splitting loses nothing: joining the fields back gives the input. */
  lemma {:induction false} SplitJoin(s: string, c: char)
    ensures Join(Split(s, c), [c]) == s
    decreases |s|
  {
    if |s| > 0 {
      var rest := Split(s[1..], c);
      SplitJoin(s[1..], c);
      if s[0] == c {
        assert Split(s, c) == [""] + rest;
        assert ([""] + rest)[1..] == rest;
        assert s == [c] + s[1..];
      } else {
        var parts := [[s[0]] + rest[0]] + rest[1..];
        assert Split(s, c) == parts;
        if |rest| == 1 {
          assert s == [s[0]] + s[1..];
        } else {
          assert parts[1..] == rest[1..];
          assert Join(rest, [c]) == rest[0] + [c] + Join(rest[1..], [c]);
          assert s == [s[0]] + s[1..];
        }
      }
    }
  }

  /** `s.replace(a, b)` for single characters: every `a` becomes `b`. */
  function ReplaceChar(s: string, a: char, b: char): (r: string)
    ensures |r| == |s|
    ensures a != b ==> a !in r
    ensures forall x :: x in r ==> x in s || x == b
  {
    seq(|s|, i requires 0 <= i < |s| => if s[i] == a then b else s[i])
  }

  /** `s.replace(c, '')` for a single character: the characters of `s` other
      than `c`, in order. */
  function DeleteChar(s: string, c: char): (r: string)
    ensures |r| <= |s|
    ensures forall x :: x in r <==> x in s && x != c
    decreases |s|
  {
    if |s| == 0 then []
    else if s[0] == c then DeleteChar(s[1..], c)
    else [s[0]] + DeleteChar(s[1..], c)
  }

  /** Python `s.replace(p, '')`: scanning left to right, each occurrence of `p`
      that does not overlap an earlier removed one is deleted. An empty `p`
      leaves `s` as it is. */
  function RemoveAll(s: string, p: string): (r: string)
    ensures |r| <= |s|
    ensures forall x :: x in r ==> x in s
    decreases |s|
  {
    if |p| == 0 then s
    else if |s| == 0 then []
    else if IsPrefix(p, s) then RemoveAll(s[|p|..], p)
    else [s[0]] + RemoveAll(s[1..], p)
  }

  /** Where `p` does not occur, nothing is removed. */
  lemma {:induction false} RemoveAllAbsent(s: string, p: string)
    requires !Contains(s, p)
    ensures RemoveAll(s, p) == s
    decreases |s|
  {
    if |p| > 0 && |s| > 0 {
      RemoveAllAbsent(s[1..], p);
      assert s == [s[0]] + s[1..];
    }
  }

  /** `parts` cuts a text at occurrences of `p` that a left-to-right scan
      meets first: no occurrence of `p` starts inside a part, neither one
      running into the following `p` nor, for the last part, one within it. */
  predicate LeftmostParts(parts: seq<string>, p: string)
    requires |p| > 0
  {
    |parts| >= 1
    && (forall i :: 0 <= i < |parts| - 1 ==> !Contains(parts[i] + p[..|p| - 1], p))
    && !Contains(parts[|parts| - 1], p)
  }

  /** The parts of `s` between the occurrences of `p` that `RemoveAll`
      deletes: joined with `p` they give back `s`, joined with nothing they
      give the result of the removal, and the cuts are the leftmost ones. */
  function Pieces(s: string, p: string): (r: seq<string>)
    requires |p| > 0
    ensures LeftmostParts(r, p)
    ensures Join(r, p) == s
    ensures Join(r, "") == RemoveAll(s, p)
    decreases |s|
  {
    if |s| == 0 then
      NotContainsShorter("", p);
      [""]
    else if IsPrefix(p, s) then
      var rest := Pieces(s[|p|..], p);
      PiecesCut(s, p, rest);
      [""] + rest
    else
      var rest := Pieces(s[1..], p);
      PiecesExtend(s, p, rest);
      [[s[0]] + rest[0]] + rest[1..]
  }

  /** The step of `Pieces` at an occurrence of `p`: an empty part, then the
      parts of what follows. */
  lemma PiecesCut(s: string, p: string, rest: seq<string>)
    requires |p| > 0 && IsPrefix(p, s)
    requires LeftmostParts(rest, p) && Join(rest, p) == s[|p|..] && Join(rest, "") == RemoveAll(s[|p|..], p)
    ensures var r := [""] + rest;
            LeftmostParts(r, p) && Join(r, p) == s && Join(r, "") == RemoveAll(s, p)
  {
    var r := [""] + rest;
    assert r[1..] == rest;
    assert s == p + s[|p|..];
    CutLeftmost(p, rest);
  }

  /** An empty part in front keeps the cuts the leftmost ones. */
  lemma CutLeftmost(p: string, rest: seq<string>)
    requires |p| > 0 && LeftmostParts(rest, p)
    ensures LeftmostParts([""] + rest, p)
  {
    var r := [""] + rest;
    NotContainsShorter(p[..|p| - 1], p);
    assert r[0] + p[..|p| - 1] == p[..|p| - 1];
    forall i | 1 <= i < |r| ensures r[i] == rest[i - 1] { }
  }

  /** The step of `Pieces` that keeps the first character of `s` in the
      first part. */
  lemma PiecesExtend(s: string, p: string, rest: seq<string>)
    requires |p| > 0 && |s| > 0 && !IsPrefix(p, s)
    requires LeftmostParts(rest, p) && Join(rest, p) == s[1..] && Join(rest, "") == RemoveAll(s[1..], p)
    ensures var r := [[s[0]] + rest[0]] + rest[1..];
            LeftmostParts(r, p) && Join(r, p) == s && Join(r, "") == RemoveAll(s, p)
  {
    JoinExtend(s[0], rest, p);
    JoinExtend(s[0], rest, "");
    assert s == [s[0]] + s[1..];
    ExtendLeftmost(s, p, rest);
  }

  /** Keeping the first character in the first part keeps the cuts the
      leftmost ones. */
  lemma ExtendLeftmost(s: string, p: string, rest: seq<string>)
    requires |p| > 0 && |s| > 0 && !IsPrefix(p, s)
    requires LeftmostParts(rest, p) && Join(rest, p) == s[1..]
    ensures LeftmostParts([[s[0]] + rest[0]] + rest[1..], p)
  {
    var r := [[s[0]] + rest[0]] + rest[1..];
    if |rest| == 1 {
      assert r[0] == s;
    } else {
      FirstPartLeftmost(s, p, rest);
    }
    forall i | 1 <= i < |r| ensures r[i] == rest[i] { }
  }

  /** Extending a first part that is not the last keeps it free of an
      occurrence of `p` starting inside it. */
  lemma FirstPartLeftmost(s: string, p: string, rest: seq<string>)
    requires |p| > 0 && |s| > 0 && !IsPrefix(p, s) && |rest| > 1
    requires !Contains(rest[0] + p[..|p| - 1], p)
    requires Join(rest, p) == s[1..]
    ensures !Contains([s[0]] + rest[0] + p[..|p| - 1], p)
  {
    var w := rest[0] + p[..|p| - 1];
    FirstPartNotPrefix(s, p, rest);
    NotContainsCons(s[0], w, p);
    assert [s[0]] + rest[0] + p[..|p| - 1] == [s[0]] + w;
  }

  /** The extended first part, up to one character short of the following
      `p`, is a prefix of `s` long enough to hold `p`, so `p` does not start
      it either. */
  lemma FirstPartNotPrefix(s: string, p: string, rest: seq<string>)
    requires |p| > 0 && |s| > 0 && !IsPrefix(p, s) && |rest| > 1
    requires Join(rest, p) == s[1..]
    ensures !IsPrefix(p, [s[0]] + (rest[0] + p[..|p| - 1]))
  {
    var y := [s[0]] + (rest[0] + p[..|p| - 1]);
    var z := [s[0]] + rest[0] + p;
    assert y == z[..|y|];
    assert s == z + Join(rest[1..], p);
    PrefixTrans(y, z, s);
    NotPrefixOfPrefix(p, y, s);
  }

  /** A text that does not start with `t` contains it only after its first
      character. */
  lemma NotContainsCons(c: char, w: string, t: string)
    requires !IsPrefix(t, [c] + w) && !Contains(w, t)
    ensures !Contains([c] + w, t)
  {
    assert ([c] + w)[1..] == w;
  }

  /** A prefix of a prefix is a prefix. */
  lemma PrefixTrans(a: string, b: string, c: string)
    requires IsPrefix(a, b) && IsPrefix(b, c)
    ensures IsPrefix(a, c)
  {
    assert c[..|a|] == c[..|b|][..|a|];
  }

  /** What is not a prefix of `s` is not a prefix of a prefix of `s` either. */
  lemma NotPrefixOfPrefix(p: string, y: string, s: string)
    requires IsPrefix(y, s) && !IsPrefix(p, s)
    ensures !IsPrefix(p, y)
  {
    if |p| <= |y| {
      assert y[..|p|] == s[..|p|];
    }
  }

  /** Putting a character in front of the first part puts it in front of
      the joined text. */
  lemma JoinExtend(c: char, parts: seq<string>, sep: string)
    requires |parts| >= 1
    ensures Join([[c] + parts[0]] + parts[1..], sep) == [c] + Join(parts, sep)
  {
    var r := [[c] + parts[0]] + parts[1..];
    if |parts| > 1 {
      assert r[1..] == parts[1..];
    }
  }

  /** An occurrence at the front is removed. */
  lemma RemoveAllLeading(p: string, s: string)
    requires |p| > 0
    ensures RemoveAll(p + s, p) == RemoveAll(s, p)
  {
    assert IsPrefix(p, p + s);
    assert (p + s)[|p|..] == s;
  }

  /** The generator echoes its prompt and then continues; when the
      continuation does not contain the prompt, removal gives exactly the
      continuation. */
  lemma RemoveEchoedPrompt(p: string, continuation: string)
    requires |p| > 0 && !Contains(continuation, p)
    ensures RemoveAll(p + continuation, p) == continuation
  {
    RemoveAllLeading(p, continuation);
    RemoveAllAbsent(continuation, p);
  }

  /** Removal is a single pass: deleting an occurrence can join its two sides
      into a new occurrence, which stays. */
  lemma RemoveAllSinglePass()
    ensures RemoveAll("aabb", "ab") == "ab"
    ensures Contains(RemoveAll("aabb", "ab"), "ab")
  {
    assert "aabb"[..2][1] != "ab"[1];
    assert "aabb"[1..] == "abb";
    assert IsPrefix("ab", "abb");
    assert "abb"[2..] == "b";
    assert "b"[1..] == "";
    assert IsPrefix("ab", "ab");
  }

  /** The concise-sentence step of both pipelines: when the text contains a
      '.', keep the first '.'-separated field and end it with '.'; otherwise
      keep the text. The result then holds exactly one '.', as its last
      character. */
  function FirstSentence(s: string): (r: string)
    ensures '.' !in s ==> r == s
    ensures '.' in s ==> (|r| >= 1 && r[|r| - 1] == '.' && '.' !in r[..|r| - 1]
                          && IsPrefix(r, s))
    ensures forall x :: x in r ==> x in s
  {
    if '.' in s then Split(s, '.')[0] + "." else s
  }

  /** The first sentence of a text is its own first sentence. */
  lemma FirstSentenceIdempotent(s: string)
    ensures FirstSentence(FirstSentence(s)) == FirstSentence(s)
  {
    var r := FirstSentence(s);
    if '.' in s {
      assert '.' in r;
      var h := Split(r, '.')[0];
      assert h == r[..|r| - 1];
      assert r == r[..|r| - 1] + ".";
    }
  }

  /** Taking the first sentence of a stripped text leaves it stripped, as
      long as '.' is not whitespace. */
  lemma FirstSentenceStripped(s: string, isSpace: char -> bool)
    requires Stripped(s, isSpace) && !isSpace('.')
    ensures Stripped(FirstSentence(s), isSpace)
  {
    var r := FirstSentence(s);
    if '.' in s && |r| > 1 {
      assert r[0] == s[0];
    }
  }

  /** Replacing a character that does not occur changes nothing. */
  lemma ReplaceCharAbsent(s: string, a: char, b: char)
    requires a !in s
    ensures ReplaceChar(s, a, b) == s
  {
    var r := ReplaceChar(s, a, b);
    assert forall i :: 0 <= i < |s| ==> r[i] == s[i];
  }

  /** Deleting a character that does not occur changes nothing. */
  lemma {:induction false} DeleteCharAbsent(s: string, c: char)
    requires c !in s
    ensures DeleteChar(s, c) == s
    decreases |s|
  {
    if |s| > 0 {
      assert c !in s[1..];
      DeleteCharAbsent(s[1..], c);
      assert s == [s[0]] + s[1..];
    }
  }

  /** A text shorter than `t` does not contain it. */
  lemma {:induction false} NotContainsShorter(s: string, t: string)
    requires |s| < |t|
    ensures !Contains(s, t)
    decreases |s|
  {
    if |s| > 0 { NotContainsShorter(s[1..], t); }
  }
}
