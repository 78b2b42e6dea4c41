/** `get_next_word` (http_server/src/http/request.rs): the request-line
    tokenizer.  It scans the characters of the request for the first space or
    carriage return and splits there: the word before the delimiter, and the
    rest after it.  A space is skipped on its own; a `\r` is skipped together
    with the byte after it, on the assumption that it is the `\n` of a CRLF.

    The source indexes characters with `chars().enumerate()` but slices by
    byte offset, so it only splits correctly when every character before the
    delimiter is one byte long.  `NextWordAsWritten` and
    `GetNextWordAsWritten` model the code as it stands; `NextWord` and
    `GetNextWord` slice at the byte offset of the delimiter instead (what
    `char_indices()` would give), agree with it on one-byte words, and are the
    tokenizer the request parser is modelled with. */
module Tokenizer {
  import opened Utf8Text

  /** What one call returns: `None` (no delimiter), `Some((word, rest))`, or
      a panic from slicing outside the string or inside a character. */
  datatype Split = Absent | Found(word: string, rest: string) | SlicePanic

  predicate IsDelimiter(c: char)
  {
    c == ' ' || c == '\r'
  }

  predicate DelimiterFree(s: string)
  {
    forall k :: 0 <= k < |s| ==> !IsDelimiter(s[k])
  }

  /** Bytes skipped at a delimiter: the space alone, or the `\r` and the byte
      after it. */
  function Skip(c: char): nat
  {
    if c == '\r' then 2 else 1
  }

  /** Index of the first space or `\r`, or `|s|` if there is none. */
  function FirstDelimiter(s: string): (i: nat)
    ensures i <= |s|
    ensures forall k :: 0 <= k < i ==> !IsDelimiter(s[k])
    ensures i < |s| ==> IsDelimiter(s[i])
  {
    DelimiterFrom(s, 0)
  }

  /** The first delimiter at or after `j`, when there is none before it. */
  function DelimiterFrom(s: string, j: nat): (i: nat)
    requires j <= |s|
    requires forall k :: 0 <= k < j ==> !IsDelimiter(s[k])
    ensures j <= i <= |s|
    ensures forall k :: 0 <= k < i ==> !IsDelimiter(s[k])
    ensures i < |s| ==> IsDelimiter(s[i])
    decreases |s| - j
  {
    if j == |s| || IsDelimiter(s[j]) then j else DelimiterFrom(s, j + 1)
  }

  /** The first delimiter is pinned down by its two properties. */
  lemma FirstDelimiterUnique(s: string, i: nat)
    requires i <= |s|
    requires forall k :: 0 <= k < i ==> !IsDelimiter(s[k])
    requires i < |s| ==> IsDelimiter(s[i])
    ensures FirstDelimiter(s) == i
  {
  }

  /** `Some((&s[..wordEnd], &s[restStart..]))`, panicking if either slice does. */
  function Cut(s: string, wordEnd: nat, restStart: nat): Split
  {
    match (SliceTo(s, wordEnd), SliceFrom(s, restStart))
    case (Some(w), Some(r)) => Found(w, r)
    case _ => SlicePanic
  }

  /** `get_next_word` as written: the character index of the delimiter is
      used as a byte offset.  It still finds no word exactly when there is no
      delimiter, and the word it returns is never longer than the characters
      before the delimiter (a byte offset never precedes its character
      index). */
  function NextWordAsWritten(s: string): (r: Split)
    ensures r == Absent <==> DelimiterFree(s)
    ensures r.Found? ==> |r.word| <= FirstDelimiter(s)
  {
    var i := FirstDelimiter(s);
    if i == |s| then Absent
    else
      CharIndexAtOffset(s, i);
      Cut(s, i, i + Skip(s[i]))
  }

  /** `get_next_word` slicing at the byte offset of the delimiter: no word
      exactly when there is no delimiter, and a word found is exactly the
      characters before the first delimiter. */
  function NextWord(s: string): (r: Split)
    ensures r == Absent <==> DelimiterFree(s)
    ensures r.Found? ==> r.word == s[..FirstDelimiter(s)]
  {
    var i := FirstDelimiter(s);
    if i == |s| then Absent
    else
      var b := ByteOffset(s, i);
      SliceAtOffset(s, i, b);
      Cut(s, b, b + Skip(s[i]))
  }

  /** What the tokenizer as written returns when the first delimiter is at
      character `i`: slices at `i` and `skip` bytes further on. */
  lemma AsWrittenAtDelimiter(s: string, i: nat, skip: nat)
    requires i < |s| && IsDelimiter(s[i]) && skip == Skip(s[i])
    requires forall k :: 0 <= k < i ==> !IsDelimiter(s[k])
    ensures Cut(s, i, i + skip) == NextWordAsWritten(s)
  {
    FirstDelimiterUnique(s, i);
  }

  /** What the corrected tokenizer returns when the first delimiter is at
      character `i`, byte `b`: slices at `b` and `skip` bytes further on. */
  lemma NextWordAtDelimiter(s: string, i: nat, b: nat, skip: nat)
    requires i < |s| && IsDelimiter(s[i]) && skip == Skip(s[i])
    requires forall k :: 0 <= k < i ==> !IsDelimiter(s[k])
    requires b == ByteOffset(s, i)
    ensures Cut(s, b, b + skip) == NextWord(s)
  {
    FirstDelimiterUnique(s, i);
    NextWordAtFirst(s, i, b, skip);
  }

  /** `NextWord` unfolded at its first delimiter. */
  lemma NextWordAtFirst(s: string, i: nat, b: nat, skip: nat)
    requires i == FirstDelimiter(s) && i < |s|
    requires b == ByteOffset(s, i) && skip == Skip(s[i])
    ensures Cut(s, b, b + skip) == NextWord(s)
  {
  }

  /** The loop of `get_next_word`, as written. */
  method GetNextWordAsWritten(request: string) returns (r: Split)
    ensures r == NextWordAsWritten(request)
  {
    var i := 0;
    while i < |request|
      invariant i <= |request|
      invariant forall k :: 0 <= k < i ==> !IsDelimiter(request[k])
    {
      var c := request[i];
      if c == ' ' {
        AsWrittenAtDelimiter(request, i, 1);
        return Cut(request, i, i + 1);
      }
      if c == '\r' {
        AsWrittenAtDelimiter(request, i, 2);
        return Cut(request, i, i + 2);
      }
      i := i + 1;
    }
    FirstDelimiterUnique(request, i);
    return Absent;
  }

  /** The same loop keeping the byte offset `b` of character `i` beside it. */
  method GetNextWord(request: string) returns (r: Split)
    ensures r == NextWord(request)
  {
    var i, b := 0, 0;
    while i < |request|
      invariant i <= |request| && b == ByteOffset(request, i)
      invariant forall k :: 0 <= k < i ==> !IsDelimiter(request[k])
    {
      var c := request[i];
      if c == ' ' {
        NextWordAtDelimiter(request, i, b, 1);
        return Cut(request, b, b + 1);
      }
      if c == '\r' {
        NextWordAtDelimiter(request, i, b, 2);
        return Cut(request, b, b + 2);
      }
      ByteOffsetStep(request, i);
      b := b + Utf8Len(c);
      i := i + 1;
    }
    assert DelimiterFree(request);
    return Absent;
  }

  /** Slicing around a space at character `i`, byte `b`. */
  lemma CutAtSpace(s: string, i: nat, b: nat)
    requires i < |s| && s[i] == ' ' && b == ByteOffset(s, i)
    ensures Cut(s, b, b + 1) == Found(s[..i], s[i + 1..])
  {
    SliceAtOffset(s, i, b);
    assert b + 1 == ByteOffset(s, i + 1) by { ByteOffsetStep(s, i); }
    SliceAtOffset(s, i + 1, b + 1);
    CutOfSlices(s, b, b + 1, s[..i], s[i + 1..]);
  }

  /** `Cut` of two slices that both succeed. */
  lemma CutOfSlices(s: string, wordEnd: nat, restStart: nat, w: string, r: string)
    requires SliceTo(s, wordEnd) == Some(w) && SliceFrom(s, restStart) == Some(r)
    ensures Cut(s, wordEnd, restStart) == Found(w, r)
  {
  }

  /** Slicing around a `\r` at character `i`, byte `b`, two bytes past it. */
  lemma CutAtCr(s: string, i: nat, b: nat)
    requires i < |s| && s[i] == '\r' && b == ByteOffset(s, i)
    ensures i + 1 < |s| && Utf8Len(s[i + 1]) == 1 ==> Cut(s, b, b + 2) == Found(s[..i], s[i + 2..])
    ensures !(i + 1 < |s| && Utf8Len(s[i + 1]) == 1) ==> Cut(s, b, b + 2) == SlicePanic
  {
    ByteOffsetStep(s, i);
    if i + 1 < |s| {
      ByteOffsetStep(s, i + 1);
      if Utf8Len(s[i + 1]) == 1 {
        SliceAtOffset(s, i, b);
        SliceAtOffset(s, i + 2, b + 2);
        CutOfSlices(s, b, b + 2, s[..i], s[i + 2..]);
      } else {
        SliceInsideChar(s, i + 1, b + 2);
      }
    } else {
      ByteOffsetIsPrefixLength(s, |s|);
      SlicePastEnd(s, b + 2);
    }
  }

  /** What `NextWord` returns, in terms of the position `i` of the first
      delimiter: no delimiter gives `Absent`; a space gives `s[..i]` and
      `s[i+1..]`; a `\r` gives `s[..i]` and `s[i+2..]` when a one-byte
      character follows it, and a panic when it is the last character or a
      wider one follows. */
  lemma NextWordCases(s: string, i: nat)
    requires i == FirstDelimiter(s)
    ensures i == |s| ==> NextWord(s) == Absent
    ensures i < |s| && s[i] == ' ' ==> NextWord(s) == Found(s[..i], s[i + 1..])
    ensures i < |s| && s[i] == '\r' && i + 1 < |s| && Utf8Len(s[i + 1]) == 1 ==>
      NextWord(s) == Found(s[..i], s[i + 2..])
    ensures i < |s| && s[i] == '\r' && !(i + 1 < |s| && Utf8Len(s[i + 1]) == 1) ==>
      NextWord(s) == SlicePanic
  {
    if i < |s| {
      if s[i] == ' ' {
        NextWordAtSpace(s, i);
      } else {
        NextWordAtCr(s, i);
      }
    }
  }

  /** The space case of `NextWordCases`. */
  lemma NextWordAtSpace(s: string, i: nat)
    requires i == FirstDelimiter(s) && i < |s| && s[i] == ' '
    ensures NextWord(s) == Found(s[..i], s[i + 1..])
  {
    var b := ByteOffset(s, i);
    NextWordAtDelimiter(s, i, b, 1);
    CutAtSpace(s, i, b);
  }

  /** The `\r` case of `NextWordCases`. */
  lemma NextWordAtCr(s: string, i: nat)
    requires i == FirstDelimiter(s) && i < |s| && s[i] == '\r'
    ensures i + 1 < |s| && Utf8Len(s[i + 1]) == 1 ==> NextWord(s) == Found(s[..i], s[i + 2..])
    ensures !(i + 1 < |s| && Utf8Len(s[i + 1]) == 1) ==> NextWord(s) == SlicePanic
  {
    var b := ByteOffset(s, i);
    NextWordAtDelimiter(s, i, b, 2);
    CutAtCr(s, i, b);
  }

  /** `None` exactly when the input has neither a space nor a `\r`, both as
      written and corrected. */
  lemma NextWordAbsent(s: string)
    ensures NextWord(s) == Absent <==> DelimiterFree(s)
    ensures NextWordAsWritten(s) == Absent <==> DelimiterFree(s)
  {
    NextWordCases(s, FirstDelimiter(s));
  }

  /** `s` is the word `w`, a delimiter and `r`: a space, or a `\r` followed by
      one more one-byte character (the `\n` it is assumed to be paired with). */
  predicate Separated(s: string, w: string, r: string)
  {
    DelimiterFree(w) &&
    (s == w + " " + r ||
     (|s| == |w| + 2 + |r| && Utf8Len(s[|w| + 1]) == 1 && s == w + "\r" + [s[|w| + 1]] + r))
  }

  /** Splitting `w + " " + r` or `w + "\r" + [c] + r` finds `w` first. */
  lemma FirstDelimiterAfterWord(s: string, w: string)
    requires DelimiterFree(w) && |w| < |s| && s[..|w|] == w && IsDelimiter(s[|w|])
    ensures FirstDelimiter(s) == |w|
  {
    forall k | 0 <= k < |w| ensures !IsDelimiter(s[k]) {
      assert s[k] == s[..|w|][k];
    }
    FirstDelimiterUnique(s, |w|);
  }

  /** The word and the rest found are separated by the delimiter. */
  lemma FoundIsSeparated(s: string)
    requires NextWord(s).Found?
    ensures Separated(s, NextWord(s).word, NextWord(s).rest)
  {
    var i := FirstDelimiter(s);
    NextWordCases(s, i);
    if s[i] == ' ' {
      SplitAtSpace(s, i);
    } else {
      SplitAtCr(s, i);
    }
  }

  lemma SplitAtSpace(s: string, i: nat)
    requires i < |s| && s[i] == ' ' && DelimiterFree(s[..i])
    ensures Separated(s, s[..i], s[i + 1..])
  {
    assert s == s[..i] + " " + s[i + 1..];
  }

  lemma SplitAtCr(s: string, i: nat)
    requires i + 1 < |s| && s[i] == '\r' && Utf8Len(s[i + 1]) == 1 && DelimiterFree(s[..i])
    ensures Separated(s, s[..i], s[i + 2..])
  {
    assert s == s[..i] + "\r" + [s[i + 1]] + s[i + 2..];
  }

  /** A separated word is what the tokenizer finds. */
  lemma SeparatedIsFound(s: string, w: string, r: string)
    requires Separated(s, w, r)
    ensures NextWord(s) == Found(w, r)
  {
    assert s[..|w|] == w;
    FirstDelimiterAfterWord(s, w);
    NextWordCases(s, |w|);
    if s == w + " " + r {
      assert s[|w| + 1..] == r;
    } else {
      assert s[|w| + 2..] == r;
    }
  }

  /** A word followed by a space, or by CRLF, is separated from what follows. */
  lemma SeparatedBySpaceOrCrlf(w: string, r: string)
    requires DelimiterFree(w)
    ensures Separated(w + " " + r, w, r)
    ensures Separated(w + "\r\n" + r, w, r)
  {
    var s := w + "\r\n" + r;
    assert s[|w| + 1] == '\n';
    assert s == w + "\r" + [s[|w| + 1]] + r;
  }

  /** `Some((w, r))` exactly when `s` is `w`, a delimiter, and `r`. */
  lemma NextWordFound(s: string, w: string, r: string)
    ensures NextWord(s) == Found(w, r) <==> Separated(s, w, r)
  {
    if NextWord(s) == Found(w, r) {
      FoundIsSeparated(s);
    }
    if Separated(s, w, r) {
      SeparatedIsFound(s, w, r);
    }
  }

  /** A word that is found is followed by a strictly shorter rest, so
      tokenizing again and again terminates. */
  lemma NextWordShrinks(s: string)
    ensures NextWord(s).Found? ==> |NextWord(s).rest| < |s| && |NextWord(s).word| < |s|
    ensures NextWordAsWritten(s).Found? ==>
      |NextWordAsWritten(s).rest| < |s| && |NextWordAsWritten(s).word| < |s|
  {
    if NextWord(s).Found? {
      NextWordFound(s, NextWord(s).word, NextWord(s).rest);
    }
    var i := FirstDelimiter(s);
    if i < |s| {
      SliceFromPositive(s, i + Skip(s[i]));
    }
  }

  /** Every `\r` is followed by a `\n`. */
  predicate CrFollowedByLf(s: string)
  {
    forall k :: 0 <= k < |s| && s[k] == '\r' ==> k + 1 < |s| && s[k + 1] == '\n'
  }

  /** When every `\r` is paired with a `\n` the tokenizer never panics, and
      the rest it returns keeps that property. */
  lemma NextWordOnCrlf(s: string)
    requires CrFollowedByLf(s)
    ensures NextWord(s) != SlicePanic
    ensures NextWord(s).Found? ==> CrFollowedByLf(NextWord(s).rest)
  {
    NextWordCases(s, FirstDelimiter(s));
    var i := FirstDelimiter(s);
    if i < |s| {
      var skip := Skip(s[i]);
      var rest := s[i + skip..];
      assert NextWord(s).rest == rest;
      forall k | 0 <= k < |rest| && rest[k] == '\r'
        ensures k + 1 < |rest| && rest[k + 1] == '\n'
      {
        assert s[i + skip + k] == '\r';
      }
    }
  }

  /** On a word of one-byte characters, character index and byte offset
      coincide and the code as written is right. */
  lemma AsWrittenAgreesOnOneByteWords(s: string)
    requires OneByteChars(s[..FirstDelimiter(s)])
    ensures NextWordAsWritten(s) == NextWord(s)
  {
    var i := FirstDelimiter(s);
    forall k | 0 <= k < i ensures Utf8Len(s[k]) == 1 {
      assert s[..i][k] == s[k];
    }
    ByteOffsetOneByte(s, i);
  }

  /** As written, a word holding a character wider than one byte is never
      returned intact, whether a space or CRLF follows it: the character
      count `|w|` falls short of the word's byte length, so the first slice
      either panics or cuts the word short. */
  lemma AsWrittenBreaksMultiByteWord(w: string, r: string)
    requires DelimiterFree(w) && !OneByteChars(w)
    ensures NextWordAsWritten(w + " " + r) != Found(w, r)
    ensures NextWordAsWritten(w + "\r\n" + r) != Found(w, r)
  {
    var s1 := w + " " + r;
    assert s1[..|w|] == w;
    AsWrittenCutsWordShort(s1, w);
    var s2 := w + "\r\n" + r;
    assert s2[..|w|] == w;
    AsWrittenCutsWordShort(s2, w);
  }

  /** The first slice as written, at byte `|w|` of a text that starts with
      the delimiter-free word `w`, never yields all of `w` when `w` holds a
      wider character. */
  lemma AsWrittenCutsWordShort(s: string, w: string)
    requires DelimiterFree(w) && !OneByteChars(w)
    requires |w| < |s| && s[..|w|] == w && IsDelimiter(s[|w|])
    ensures NextWordAsWritten(s).Found? ==> |NextWordAsWritten(s).word| < |w|
  {
    FirstDelimiterAfterWord(s, w);
    var k :| 0 <= k < |w| && Utf8Len(w[k]) != 1;
    assert ByteOffset(s, |w|) > |w| by {
      assert s[k] == w[k];
      ByteOffsetStep(s, k);
      ByteOffsetGrowth(s, k + 1, |w|);
    }
    CharIndexAtOffset(s, |w|);
    if SliceTo(s, |w|).Some? {
      var m := CharIndexAt(s, |w|).value;
      assert |SliceTo(s, |w|).value| == m < |w|;
    }
  }

  /** As written, a separated word of one-byte characters is split off just
      as the corrected tokenizer splits it, whatever follows it. */
  lemma AsWrittenFindsOneByteWord(s: string, w: string, r: string)
    requires Separated(s, w, r) && OneByteChars(w)
    ensures NextWordAsWritten(s) == Found(w, r)
  {
    SeparatedIsFound(s, w, r);
    assert s[..|w|] == w;
    FirstDelimiterAfterWord(s, w);
    AsWrittenAgreesOnOneByteWords(s);
  }

  /** On text of one-byte characters the code as written is right, and the
      rest it returns is again one-byte text, so repeated calls agree too. */
  lemma AsWrittenAgreesOnOneByteText(s: string)
    requires OneByteChars(s)
    ensures NextWordAsWritten(s) == NextWord(s)
    ensures NextWord(s).Found? ==> OneByteChars(NextWord(s).rest)
  {
    var i := FirstDelimiter(s);
    forall k | 0 <= k < i ensures Utf8Len(s[..i][k]) == 1 {
      assert s[..i][k] == s[k];
    }
    AsWrittenAgreesOnOneByteWords(s);
    NextWordCases(s, i);
    if NextWord(s).Found? {
      var j := i + Skip(s[i]);
      assert NextWord(s).rest == s[j..];
      forall k | 0 <= k < |s[j..]| ensures Utf8Len(s[j..][k]) == 1 {
        assert s[j..][k] == s[j + k];
      }
    }
  }

  /** The path of `GET /caf\U{E9} HTTP/1.1`: as written, the space is found at
      character 5, but byte 5 lies inside the two-byte `\U{E9}`, and slicing
      there panics.  At the space's byte offset 6 the split succeeds. */
  lemma AsWrittenPanicsOnMultiByteWord(s: string)
    requires s == "/caf\U{E9} HTTP/1.1\r\n"
    ensures NextWordAsWritten(s) == SlicePanic
    ensures NextWord(s) == Found("/caf\U{E9}", "HTTP/1.1\r\n")
  {
    var w, r := "/caf\U{E9}", "HTTP/1.1\r\n";
    assert s == w + " " + r;
    FirstDelimiterAfterWord(s, w);
    ByteOffsetOneByte(s, 4);
    SliceInsideChar(s, 4, 5);
    SeparatedIsFound(s, w, r);
  }

  /** When both byte offsets happen to be character boundaries, the code as
      written does not panic but splits at the wrong place. */
  lemma AsWrittenMisplacesSplit(s: string)
    requires s == "\U{E9}ab c"
    ensures NextWordAsWritten(s) == Found("\U{E9}a", " c")
    ensures NextWord(s) == Found("\U{E9}ab", "c")
  {
    var w, r := "\U{E9}ab", "c";
    assert s == w + " " + r;
    FirstDelimiterAfterWord(s, w);
    assert ByteOffset(s, 0) == 0 by { assert s[..0] == []; }
    ByteOffsetStep(s, 0);
    ByteOffsetStep(s, 1);
    ByteOffsetStep(s, 2);
    assert ByteOffset(s, 2) == 3 && ByteOffset(s, 3) == 4;
    SliceAtOffset(s, 2, 3);
    SliceAtOffset(s, 3, 4);
    assert s[..2] == "\U{E9}a" && s[3..] == " c";
    assert NextWordAsWritten(s) == Cut(s, 3, 4);
    SeparatedIsFound(s, w, r);
  }
}
