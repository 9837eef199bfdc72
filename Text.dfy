/**
 The few Python `str` operations the formatter and the context builder rely on:
 `strip()`, `split(sep)`, `split()`, the substring test `in`, `startswith` and
 `endswith`. Strings are sequences of Unicode scalar values.
 */
module Text {

  /** Python's `str.isspace` character set, which `strip()` and `split()` use. */
  predicate IsSpace(c: char)
  {
    ('\t' <= c <= '\r') || ('\U{1C}' <= c <= '\U{1F}') || c == ' ' ||
    c == '\U{85}' || c == '\U{A0}' || c == '\U{1680}' ||
    ('\U{2000}' <= c <= '\U{200A}') || c == '\U{2028}' || c == '\U{2029}' ||
    c == '\U{202F}' || c == '\U{205F}' || c == '\U{3000}'
  }

  predicate AllSpace(s: string)
  {
    forall i :: 0 <= i < |s| ==> IsSpace(s[i])
  }

  predicate NoSpace(s: string)
  {
    forall i :: 0 <= i < |s| ==> !IsSpace(s[i])
  }

  predicate StartsWith(s: string, prefix: string)
  {
    |prefix| <= |s| && s[..|prefix|] == prefix
  }

  predicate EndsWith(s: string, suffix: string)
  {
    |suffix| <= |s| && s[|s| - |suffix|..] == suffix
  }

  /** `sub` occurs in `s` starting at index `i`. */
  predicate OccursAt(s: string, sub: string, i: int)
  {
    0 <= i <= |s| - |sub| && s[i..i + |sub|] == sub
  }

  /** Python's `sub in s`. */
  function Contains(s: string, sub: string): bool
    decreases |s|
  {
    if |s| < |sub| then false
    else if s[..|sub|] == sub then true
    else Contains(s[1..], sub)
  }

  /** `Contains(s, sub)` holds exactly when `sub` occurs somewhere in `s` as a factor. */
  lemma {:induction false} ContainsOccurs(s: string, sub: string)
    ensures Contains(s, sub) <==> exists i :: OccursAt(s, sub, i)
    decreases |s|
  {
    if |s| < |sub| {
    } else if s[..|sub|] == sub {
      assert OccursAt(s, sub, 0);
    } else {
      OccursInTail(s, sub);
      assert !OccursAt(s, sub, 0);
      ContainsOccurs(s[1..], sub);
    }
  }

  /** Past index 0, the occurrences in `s` are those in `s[1..]`, shifted by one. */
  lemma OccursInTail(s: string, sub: string)
    requires s != []
    ensures forall i :: 0 < i ==> (OccursAt(s, sub, i) <==> OccursAt(s[1..], sub, i - 1))
    ensures forall j :: 0 <= j ==> (OccursAt(s[1..], sub, j) <==> OccursAt(s, sub, j + 1))
  {
    forall i | 0 < i
      ensures OccursAt(s, sub, i) <==> OccursAt(s[1..], sub, i - 1)
    {
      if 0 < i <= |s| - |sub| {
        forall k | i <= k < i + |sub|
          ensures s[k] == s[1..][k - 1]
        {
        }
        assert s[i..i + |sub|] == s[1..][i - 1..i - 1 + |sub|];
      }
    }
  }

  /** `s` without its leading whitespace. */
  function TrimStart(s: string): string
    decreases |s|
  {
    if s != [] && IsSpace(s[0]) then TrimStart(s[1..]) else s
  }

  /** `TrimStart(s)` is a suffix of `s`, what it drops is whitespace, and it does not start with whitespace. */
  lemma {:induction false} TrimStartSuffix(s: string)
    ensures |TrimStart(s)| <= |s| && TrimStart(s) == s[|s| - |TrimStart(s)|..]
    ensures AllSpace(s[..|s| - |TrimStart(s)|])
    ensures TrimStart(s) == [] || !IsSpace(TrimStart(s)[0])
    decreases |s|
  {
    if s != [] && IsSpace(s[0]) {
      TrimStartSuffix(s[1..]);
      var n := |s| - |TrimStart(s)|;
      assert forall k :: 1 <= k < n ==> s[..n][k] == s[1..][..n - 1][k - 1];
    }
  }

  /** `s` without its trailing whitespace. */
  function TrimEnd(s: string): string
    decreases |s|
  {
    if s != [] && IsSpace(s[|s| - 1]) then TrimEnd(s[..|s| - 1]) else s
  }

  /** `TrimEnd(s)` is a prefix of `s`, what it drops is whitespace, and it does not end with whitespace. */
  lemma {:induction false} TrimEndPrefix(s: string)
    ensures |TrimEnd(s)| <= |s| && TrimEnd(s) == s[..|TrimEnd(s)|]
    ensures AllSpace(s[|TrimEnd(s)|..])
    ensures TrimEnd(s) == [] || !IsSpace(TrimEnd(s)[|TrimEnd(s)| - 1])
    decreases |s|
  {
    if s != [] && IsSpace(s[|s| - 1]) {
      var s' := s[..|s| - 1];
      TrimEndPrefix(s');
      var n := |TrimEnd(s)|;
      forall k | 0 <= k < |s| - n
        ensures IsSpace(s[n..][k])
      {
        if k < |s| - 1 - n {
          assert s[n..][k] == s'[n..][k];
        }
      }
      assert s'[..n] == s[..n];
    }
  }

  /**
   Python's `s.strip()`: `s` without whitespace at either end. It is empty
   exactly when `s` is all whitespace; `StripIsPadded` and `StripUnique` say
   which factor of `s` it is.
   */
  function Strip(s: string): (r: string)
    ensures r == [] <==> AllSpace(s)
    ensures r != [] ==> !IsSpace(r[0]) && !IsSpace(r[|r| - 1])
  {
    var t := TrimStart(s);
    TrimStartSuffix(s);
    TrimEndPrefix(t);
    assert AllSpace(s) ==> t == [];
    assert t != [] ==> TrimEnd(t) != [] && TrimEnd(t)[0] == t[0];
    assert TrimEnd(t) == [] ==> AllSpace(s) by {
      if TrimEnd(t) == [] {
        assert forall k :: 0 <= k < |s| ==> s[..|s| - |t|][k] == s[k];
      }
    }
    TrimEnd(t)
  }

  /** `s` is `r` with only whitespace before index `i` and after `r`. */
  predicate Padded(s: string, r: string, i: int)
  {
    0 <= i <= |s| - |r| && s[i..i + |r|] == r && AllSpace(s[..i]) && AllSpace(s[i + |r|..])
  }

  /** `Strip(s)` is a factor of `s` with only whitespace around it. */
  lemma StripIsPadded(s: string)
    ensures Padded(s, Strip(s), |s| - |TrimStart(s)|)
  {
    var t := TrimStart(s);
    TrimStartSuffix(s);
    TrimEndPrefix(t);
    var r := Strip(s);
    var i := |s| - |t|;
    assert s[i..i + |r|] == r;
    assert s[i + |r|..] == t[|r|..];
  }

  lemma {:induction false} PaddingIsLeadingSpace(s: string, r: string, i: int)
    requires Padded(s, r, i) && r != [] && !IsSpace(r[0])
    ensures TrimStart(s) == s[i..]
    decreases |s|
  {
    if i == 0 {
      assert s[0] == r[0];
    } else {
      assert s[..i][0] == s[0];
      assert s[1..][i - 1..i - 1 + |r|] == s[i..i + |r|];
      assert s[1..][..i - 1] == s[..i][1..];
      assert s[1..][i - 1 + |r|..] == s[i + |r|..];
      PaddingIsLeadingSpace(s[1..], r, i - 1);
      assert s[1..][i - 1..] == s[i..];
      assert IsSpace(s[0]);
    }
  }

  lemma {:induction false} PaddingIsTrailingSpace(t: string, r: string)
    requires |r| <= |t| && t[..|r|] == r && AllSpace(t[|r|..])
    requires r != [] && !IsSpace(r[|r| - 1])
    ensures TrimEnd(t) == r
    decreases |t|
  {
    if |t| == |r| {
      assert t == r;
    } else {
      var t' := t[..|t| - 1];
      assert t[|r|..][|t| - 1 - |r|] == t[|t| - 1];
      assert t'[..|r|] == r;
      assert t'[|r|..] == t[|r|..][..|t| - 1 - |r|];
      PaddingIsTrailingSpace(t', r);
    }
  }

  /**
   A factor of `s` with only whitespace around it that neither starts nor
   ends with whitespace is `Strip(s)`: strip removes all the padding and
   nothing else.
   */
  lemma StripUnique(s: string, r: string, i: int)
    requires Padded(s, r, i)
    requires r == [] || (!IsSpace(r[0]) && !IsSpace(r[|r| - 1]))
    ensures r == Strip(s)
  {
    if r == [] {
      assert forall k :: 0 <= k < |s| ==> IsSpace(s[k]) by {
        forall k | 0 <= k < |s| ensures IsSpace(s[k]) {
          if k < i { assert s[..i][k] == s[k]; } else { assert s[i..][k - i] == s[k]; }
        }
      }
    } else {
      PaddingIsLeadingSpace(s, r, i);
      var t := s[i..];
      assert t[..|r|] == r;
      assert t[|r|..] == s[i + |r|..];
      PaddingIsTrailingSpace(t, r);
    }
  }

  /** The inverse of `Split`: the pieces with one `sep` between neighbours. */
  function Join(pieces: seq<string>, sep: char): string
  {
    if |pieces| == 0 then []
    else if |pieces| == 1 then pieces[0]
    else pieces[0] + [sep] + Join(pieces[1..], sep)
  }

  /**
   Python's `s.split(sep)` for a one-character separator: always at least one
   piece (`""` gives `[""]`), no piece holds `sep`, and joining the pieces back
   with `sep` gives `s` again.
   */
  function Split(s: string, sep: char): (r: seq<string>)
    ensures |r| >= 1
    ensures forall k :: 0 <= k < |r| ==> sep !in r[k]
    ensures Join(r, sep) == s
    ensures forall k, j :: 0 <= k < |r| && 0 <= j < |r[k]| ==> r[k][j] in s
    decreases |s|
  {
    if s == [] then [[]]
    else if s[0] == sep then
      var rest := Split(s[1..], sep);
      assert s == [sep] + s[1..];
      [[]] + rest
    else
      var rest := Split(s[1..], sep);
      var r := [[s[0]] + rest[0]] + rest[1..];
      assert r[1..] == rest[1..];
      assert s == [s[0]] + s[1..];
      r
  }

  /** The longest prefix of `s` without whitespace. */
  function FirstWord(s: string): (w: string)
    ensures |w| <= |s| && w == s[..|w|] && NoSpace(w)
    ensures |w| < |s| ==> IsSpace(s[|w|])
    ensures s != [] && !IsSpace(s[0]) ==> w != []
    decreases |s|
  {
    if s == [] || IsSpace(s[0]) then [] else [s[0]] + FirstWord(s[1..])
  }

  /**
   Python's `s.split()` with no argument: the maximal runs of non-whitespace
   characters of `s`, in order; every word is non-empty and holds no whitespace.
   */
  function Words(s: string): (r: seq<string>)
    ensures forall k :: 0 <= k < |r| ==> r[k] != [] && NoSpace(r[k])
    decreases |s|
  {
    if s == [] then []
    else if IsSpace(s[0]) then Words(s[1..])
    else
      var w := FirstWord(s);
      [w] + Words(s[|w|..])
  }

  lemma {:induction false} FirstWordOf(w: string, rest: string)
    requires NoSpace(w)
    requires rest == [] || IsSpace(rest[0])
    ensures FirstWord(w + rest) == w
    decreases |w|
  {
    if w == [] {
    } else {
      assert (w + rest)[1..] == w[1..] + rest;
      FirstWordOf(w[1..], rest);
    }
  }

  /**
   Splitting on whitespace undoes joining words with single spaces: the words
   come back, all of them and in order.
   */
  lemma {:induction false} WordsOfJoin(words: seq<string>)
    requires forall k :: 0 <= k < |words| ==> words[k] != [] && NoSpace(words[k])
    ensures Words(Join(words, ' ')) == words
    decreases |words|
  {
    if |words| == 0 {
    } else if |words| == 1 {
      var w := words[0];
      FirstWordOf(w, []);
      assert w + [] == w;
      assert w[|w|..] == [];
    } else {
      var w, rest := words[0], Join(words[1..], ' ');
      var s := w + [' '] + rest;
      assert s == w + ([' '] + rest);
      FirstWordOf(w, [' '] + rest);
      assert s[|w|..] == [' '] + rest;
      assert ([' '] + rest)[1..] == rest;
      WordsOfJoin(words[1..]);
      assert words == [w] + words[1..];
    }
  }

  /** `gaps[0] + words[0] + gaps[1] + ... + words[n-1] + gaps[n]`. */
  function Weave(gaps: seq<string>, words: seq<string>): string
    requires |gaps| == |words| + 1
    decreases |words|
  {
    if words == [] then gaps[0]
    else gaps[0] + words[0] + Weave(gaps[1..], words[1..])
  }

  /**
   `s` is `words` with whitespace gaps around and between them, the gaps
   between two words being non-empty.
   */
  predicate Separates(gaps: seq<string>, words: seq<string>, s: string)
  {
    |gaps| == |words| + 1 &&
    (forall k :: 0 <= k < |gaps| ==> AllSpace(gaps[k])) &&
    (forall k :: 0 < k < |words| ==> gaps[k] != []) &&
    s == Weave(gaps, words)
  }

  /**
   `split()` loses nothing but whitespace: every text is its words, in order,
   with whitespace before, between and after them, and at least one
   whitespace character between two neighbouring words.
   */
  lemma WordsCover(s: string)
    ensures exists gaps :: Separates(gaps, Words(s), s)
  {
    var gaps := WordsGaps(s);
  }

  lemma {:induction false} WordsGaps(s: string) returns (gaps: seq<string>)
    ensures Separates(gaps, Words(s), s)
    ensures s != [] && IsSpace(s[0]) ==> gaps[0] != []
    decreases |s|
  {
    if s == [] {
      gaps := [[]];
    } else if IsSpace(s[0]) {
      var rest := WordsGaps(s[1..]);
      gaps := [[s[0]] + rest[0]] + rest[1..];
      assert Words(s) == Words(s[1..]);
      assert s == [s[0]] + s[1..];
      GapsAfterSpace(s[0], s[1..], rest, Words(s[1..]));
    } else {
      var w := FirstWord(s);
      var tail := s[|w|..];
      var rest := WordsGaps(tail);
      gaps := [[]] + rest;
      assert Words(s) == [w] + Words(tail);
      assert s == w + tail;
      assert Words(tail) != [] ==> rest[0] != [] by {
        if Words(tail) != [] {
          assert tail != [];
        }
      }
      GapsAfterWord(w, tail, rest, Words(tail));
    }
  }

  lemma GapsAfterSpace(c: char, t: string, gaps: seq<string>, words: seq<string>)
    requires IsSpace(c) && Separates(gaps, words, t)
    ensures Separates([[c] + gaps[0]] + gaps[1..], words, [c] + t)
  {
    var g := [[c] + gaps[0]] + gaps[1..];
    assert AllSpace(g[0]) by {
      assert forall j :: 1 <= j < |g[0]| ==> g[0][j] == gaps[0][j - 1];
    }
    forall k | 0 < k < |g|
      ensures g[k] == gaps[k]
    {
    }
    WeaveFirstGap(c, gaps, words);
  }

  lemma GapsAfterWord(w: string, t: string, gaps: seq<string>, words: seq<string>)
    requires Separates(gaps, words, t)
    requires words != [] ==> gaps[0] != []
    ensures Separates([[]] + gaps, [w] + words, w + t)
  {
    var g := [[]] + gaps;
    assert g[1..] == gaps;
    assert ([w] + words)[1..] == words;
    forall k | 0 < k < |g|
      ensures g[k] == gaps[k - 1]
    {
    }
    assert Weave(g, [w] + words) == [] + w + Weave(gaps, words);
  }

  /** Putting one more whitespace character in front of the first gap. */
  lemma WeaveFirstGap(c: char, gaps: seq<string>, words: seq<string>)
    requires |gaps| == |words| + 1
    ensures Weave([[c] + gaps[0]] + gaps[1..], words) == [c] + Weave(gaps, words)
  {
    var g := [[c] + gaps[0]] + gaps[1..];
    assert g[1..] == gaps[1..];
  }

  /**
   Splitting on a separator undoes joining pieces that do not hold it: the
   other half of the round trip stated by `Split`'s contract.
   */
  lemma {:induction false} SplitOfJoin(pieces: seq<string>, sep: char)
    requires |pieces| >= 1
    requires forall k :: 0 <= k < |pieces| ==> sep !in pieces[k]
    ensures Split(Join(pieces, sep), sep) == pieces
    decreases |pieces|, |pieces[0]|
  {
    var p := pieces[0];
    if p == [] {
      if |pieces| > 1 {
        var rest := Join(pieces[1..], sep);
        assert Join(pieces, sep) == [sep] + rest;
        SplitOfJoin(pieces[1..], sep);
        SplitAtSep(rest, sep);
        assert pieces == [[]] + pieces[1..];
      }
    } else {
      var shorter := [p[1..]] + pieces[1..];
      assert sep !in p[1..] by {
        assert forall j :: 0 <= j < |p[1..]| ==> p[1..][j] == p[j + 1];
      }
      assert forall k :: 1 <= k < |shorter| ==> shorter[k] == pieces[k];
      SplitOfJoin(shorter, sep);
      JoinFirstChar(pieces, sep);
      SplitAtOther(p[0], Join(shorter, sep), sep);
      assert [p[0]] + p[1..] == p;
      assert shorter[1..] == pieces[1..];
      assert pieces == [p] + pieces[1..];
    }
  }

  lemma SplitAtSep(s: string, sep: char)
    ensures Split([sep] + s, sep) == [[]] + Split(s, sep)
  {
    assert ([sep] + s)[1..] == s;
  }

  lemma SplitAtOther(c: char, s: string, sep: char)
    requires c != sep
    ensures Split([c] + s, sep) == [[c] + Split(s, sep)[0]] + Split(s, sep)[1..]
  {
    assert ([c] + s)[1..] == s;
  }

  lemma JoinFirstChar(pieces: seq<string>, sep: char)
    requires |pieces| >= 1 && pieces[0] != []
    ensures Join(pieces, sep) == [pieces[0][0]] + Join([pieces[0][1..]] + pieces[1..], sep)
  {
    var p := pieces[0];
    var shorter := [p[1..]] + pieces[1..];
    assert p == [p[0]] + p[1..];
    assert shorter[1..] == pieces[1..];
  }

  /** Joining with a last piece `q` is joining with an empty last piece, then `q`. */
  lemma {:induction false} JoinLast(pieces: seq<string>, q: string, sep: char)
    ensures Join(pieces + [q], sep) == Join(pieces + [[]], sep) + q
    decreases |pieces|
  {
    if |pieces| > 0 {
      var rest := pieces[1..];
      assert (pieces + [q])[1..] == rest + [q];
      assert (pieces + [[]])[1..] == rest + [[]];
      JoinLast(rest, q, sep);
      AppendAssoc(pieces[0] + [sep], Join(rest + [[]], sep), q);
    }
  }

  /** An empty last piece adds just one separator. */
  lemma {:induction false} JoinEmptyLast(pieces: seq<string>, sep: char)
    requires |pieces| >= 1
    ensures Join(pieces + [[]], sep) == Join(pieces, sep) + [sep]
    decreases |pieces|
  {
    if |pieces| > 1 {
      var rest := pieces[1..];
      assert (pieces + [[]])[1..] == rest + [[]];
      JoinEmptyLast(rest, sep);
      AppendAssoc(pieces[0] + [sep], Join(rest, sep), [sep]);
    }
  }

  /** Concatenation is associative; stated once so that proofs can regroup cheaply. */
  lemma AppendAssoc<T>(a: seq<T>, b: seq<T>, c: seq<T>)
    ensures (a + b) + c == a + (b + c)
  {
  }
}
