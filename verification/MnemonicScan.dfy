// The one-pass scan that turns a decomposed character stream into a canonical phrase, against
// splitting the stream into words.
module MnemonicScan {
  import opened Wrappers
  import opened WalletTypes

  const MAX_WORDS := 24
  const MAX_WORD_BYTES := 8
  const MAX_PHRASE_BYTES := MAX_WORDS * MAX_WORD_BYTES + 23

  // The White_Space property of the Unicode Standard.
  predicate IsWhitespace(c: char) {
    var n := c as int;
    9 <= n <= 13 || n == 0x20 || n == 0x85 || n == 0xa0 || n == 0x1680 || 0x2000 <= n <= 0x200a
    || n == 0x2028 || n == 0x2029 || n == 0x202f || n == 0x205f || n == 0x3000
  }

  predicate IsAsciiLowercase(c: char) {
    'a' <= c <= 'z'
  }

  // ----- what the scan is for

  // The length of the first run of characters that are not white space.
  function RunLength(s: string): (n: nat)
    ensures n <= |s| && forall i | 0 <= i < n :: !IsWhitespace(s[i])
    ensures n < |s| ==> IsWhitespace(s[n])
  {
    if s == "" || IsWhitespace(s[0]) then 0 else 1 + RunLength(s[1..])
  }

  function Words(s: string): (r: seq<string>)
    ensures forall i | 0 <= i < |r| :: r[i] != ""
  {
    if s == "" then []
    else if IsWhitespace(s[0]) then Words(s[1..])
    else [s[..RunLength(s)]] + Words(s[RunLength(s)..])
  }

  predicate Wordlike(w: string) {
    |w| <= MAX_WORD_BYTES && forall i | 0 <= i < |w| :: IsAsciiLowercase(w[i])
  }

  predicate Acceptable(words: seq<string>) {
    |words| <= MAX_WORDS && forall i | 0 <= i < |words| :: Wordlike(words[i])
  }

  // Words joined by single spaces.
  function Joined(words: seq<string>): string {
    if words == [] then ""
    else if |words| == 1 then words[0]
    else Joined(words[..|words| - 1]) + " " + words[|words| - 1]
  }

  // ----- words and runs

  lemma {:induction false} RunOver(w: string, rest: string)
    requires forall i | 0 <= i < |w| :: !IsWhitespace(w[i])
    ensures RunLength(w + rest) == |w| + RunLength(rest)
  {
    if w == "" {
      assert w + rest == rest;
    } else {
      assert (w + rest)[1..] == w[1..] + rest;
      RunOver(w[1..], rest);
    }
  }

  // A run that white space or the end of the input stops is a word.
  lemma WordsOf(w: string, after: string)
    requires w != "" && forall i | 0 <= i < |w| :: !IsWhitespace(w[i])
    requires after == "" || IsWhitespace(after[0])
    ensures Words(w + after) == [w] + Words(after)
  {
    hide IsWhitespace;
    RunOver(w, after);
    assert (w + after)[..|w|] == w && (w + after)[|w|..] == after;
  }

  lemma SpaceSkipped(space: char, rest: string)
    requires IsWhitespace(space)
    ensures Words([space] + rest) == Words(rest)
  {
    hide IsWhitespace;
    assert ([space] + rest)[1..] == rest;
  }

  // White space ends the word before it.
  lemma WordEnds(w: string, space: char, rest: string)
    requires w != "" && (forall i | 0 <= i < |w| :: !IsWhitespace(w[i])) && IsWhitespace(space)
    ensures Words(w + [space] + rest) == [w] + Words(rest)
  {
    hide IsWhitespace, Words;
    assert w + [space] + rest == w + ([space] + rest);
    WordsOf(w, [space] + rest);
    SpaceSkipped(space, rest);
  }

  // The word under way is a prefix of the first one.
  lemma WordGoesOn(w: string, rest: string)
    requires w != "" && forall i | 0 <= i < |w| :: !IsWhitespace(w[i])
    ensures |Words(w + rest)| > 0 && w <= Words(w + rest)[0]
  {
    hide IsWhitespace;
    RunOver(w, rest);
    assert (w + rest)[..|w|] == w;
    assert (w + rest)[0] == w[0];
  }

  lemma WordAtEnd(w: string)
    requires w != "" && forall i | 0 <= i < |w| :: !IsWhitespace(w[i])
    ensures Words(w) == [w]
  {
    hide IsWhitespace;
    RunOver(w, "");
    assert w + "" == w;
    assert w[..|w|] == w && w[|w|..] == "";
  }

  lemma LowercaseIsNoSpace(c: char)
    requires IsAsciiLowercase(c)
    ensures !IsWhitespace(c) && (c as int) < 128
  {
  }

  lemma {:induction false} JoinedLength(words: seq<string>)
    requires forall i | 0 <= i < |words| :: Wordlike(words[i])
    ensures words != [] ==> |Joined(words)| + 1 <= 9 * |words|
  {
    if |words| > 1 {
      JoinedLength(words[..|words| - 1]);
    }
  }

  lemma JoinedPush(words: seq<string>, w: string)
    ensures Joined(words + [w]) == Joined(words) + (if words == [] then "" else " ") + w
  {
    assert (words + [w])[..|words|] == words;
  }

  lemma {:induction false} WordsSplitAt(s: string, space: char, t: string)
    requires IsWhitespace(space)
    ensures Words(s + [space] + t) == Words(s) + Words(t)
  {
    hide IsWhitespace, Words;
    NoWords();
    if s == "" {
      assert s + [space] + t == [space] + t;
      SpaceSkipped(space, t);
    } else if IsWhitespace(s[0]) {
      WordsSplitAt(s[1..], space, t);
      SpaceSkipped(s[0], s[1..] + [space] + t);
      SpaceSkipped(s[0], s[1..]);
      assert s == [s[0]] + s[1..];
      assert s + [space] + t == [s[0]] + (s[1..] + [space] + t);
    } else {
      var w, rest := s[..RunLength(s)], s[RunLength(s)..];
      WordsSplitAt(rest, space, t);
      WordsOf(w, rest);
      WordsOf(w, rest + [space] + t);
      assert s == w + rest;
      assert s + [space] + t == w + (rest + [space] + t);
    }
  }

  lemma NoWords()
    ensures Words("") == []
  {
  }

  // The canonical phrase splits into the same words again, so the scan leaves it as it is.
  lemma {:induction false} CanonicalPhrase(words: seq<string>)
    requires forall i | 0 <= i < |words| :: Wordlike(words[i]) && words[i] != ""
    ensures Words(Joined(words)) == words
  {
    hide IsWhitespace, IsAsciiLowercase;
    if words != [] {
      var front, last := words[..|words| - 1], words[|words| - 1];
      forall i | 0 <= i < |last| ensures !IsWhitespace(last[i]) {
        LowercaseIsNoSpace(last[i]);
      }
      WordAtEnd(last);
      if front != [] {
        CanonicalPhrase(front);
        SpaceIsSpace();
        WordsSplitAt(Joined(front), ' ', last);
      }
    }
  }

  lemma SpaceIsSpace()
    ensures IsWhitespace(' ')
  {
  }

  // ----- the scan

  // The word under way, as the last of the words found so far.
  function Found(done: seq<string>, w: string): seq<string> {
    if w == "" then done else done + [w]
  }

  // The scan has stopped at a character no acceptable stream has there.
  lemma StopsForGood(done: seq<string>, w: string, c: char, rest: string)
    requires forall i | 0 <= i < |w| :: !IsWhitespace(w[i])
    requires !IsWhitespace(c) && (!IsAsciiLowercase(c) || |w| == MAX_WORD_BYTES || (w == "" && |done| == MAX_WORDS))
    ensures !Acceptable(done + Words(w + ([c] + rest)))
  {
    hide Words, IsWhitespace, IsAsciiLowercase;
    var word := w + [c];
    assert w + ([c] + rest) == word + rest;
    WordGoesOn(word, rest);
    var all := done + Words(word + rest);
    var first := all[|done|];
    assert first == Words(word + rest)[0] && word <= first && first[|w|] == word[|w|] == c;
    assert Wordlike(first) ==> IsAsciiLowercase(first[|w|]) && |first| <= MAX_WORD_BYTES;
    assert |all| > |done|;
  }

  method Scan(input: string) returns (r: Result<string, ErrorCode>)
    ensures r == if Acceptable(Words(input)) then Ok(Joined(Words(input))) else Err(InvalidMnemonic)
  {
    hide Words, IsWhitespace, IsAsciiLowercase, Joined, Wordlike, Acceptable;
    var normalized := new char[MAX_PHRASE_BYTES](_ => ' ');
    var length, words, wordLength := 0, 0, 0;
    ghost var done: seq<string>, w: string := [], "";
    assert "" + input[0..] == input;
    StartsEmpty(input);
    for i := 0 to |input|
      invariant 0 <= length <= MAX_PHRASE_BYTES
      invariant words == |Found(done, w)| <= MAX_WORDS && wordLength == |w| <= MAX_WORD_BYTES
      invariant Scanned(done, w)
      invariant done + Words(w + input[i..]) == Words(input)
      invariant normalized[..length] == Joined(Found(done, w))
    {
      var c := input[i];
      assert input[i..] == [c] + input[i + 1..];
      if IsWhitespace(c) {
        SpaceStep(done, w, c, input[i + 1..]);
        done, w := Found(done, w), "";
        wordLength := 0;
        continue;
      }
      if !IsAsciiLowercase(c) || wordLength == MAX_WORD_BYTES {
        StopsForGood(done, w, c, input[i + 1..]);
        return Err(InvalidMnemonic);
      }
      if wordLength == 0 {
        if words == MAX_WORDS {
          StopsForGood(done, w, c, input[i + 1..]);
          return Err(InvalidMnemonic);
        }
        RoomForWord(done);
        if words != 0 {
          normalized[length] := ' ';
          length := length + 1;
        }
        words := words + 1;
      }
      LetterStep(done, w, c, input[i + 1..]);
      normalized[length] := c;
      length := length + 1;
      wordLength := wordLength + 1;
      w := w + [c];
    }
    EndOfInput(done, w);
    assert w + input[|input|..] == w;
    r := Ok(normalized[..length]);
  }

  // What holds of the words found: all are acceptable, the one under way included.
  predicate Scanned(done: seq<string>, w: string) {
    && (forall i | 0 <= i < |done| :: Wordlike(done[i]) && done[i] != "")
    && Wordlike(w)
    && (forall i | 0 <= i < |w| :: !IsWhitespace(w[i]))
  }

  lemma StartsEmpty(input: string)
    ensures Scanned([], "") && Joined([]) == "" && [] + Words(input) == Words(input)
  {
  }

  lemma EmptyIsWordlike()
    ensures Wordlike("")
  {
  }

  lemma SpaceStep(done: seq<string>, w: string, space: char, rest: string)
    requires Scanned(done, w) && IsWhitespace(space)
    ensures Scanned(Found(done, w), "")
    ensures done + Words(w + ([space] + rest)) == Found(done, w) + Words("" + rest)
  {
    hide Words, IsWhitespace, IsAsciiLowercase, Wordlike;
    assert "" + rest == rest;
    EmptyIsWordlike();
    if w == "" {
      SpaceSkipped(space, rest);
      assert "" + ([space] + rest) == [space] + rest;
    } else {
      WordEnds(w, space, rest);
      assert w + ([space] + rest) == w + [space] + rest;
    }
  }

  // Room in the buffer for a space and a first letter.
  lemma RoomForWord(done: seq<string>)
    requires Scanned(done, "") && |done| < MAX_WORDS
    ensures |Joined(done)| + 1 < MAX_PHRASE_BYTES
  {
    JoinedLength(done);
  }

  lemma LetterStep(done: seq<string>, w: string, c: char, rest: string)
    requires Scanned(done, w) && IsAsciiLowercase(c) && |w| < MAX_WORD_BYTES && |done| < MAX_WORDS
    ensures Scanned(done, w + [c])
    ensures done + Words(w + ([c] + rest)) == done + Words(w + [c] + rest)
    ensures Joined(Found(done, w + [c])) ==
      (if w == "" then Joined(done) + (if done == [] then "" else " ") else Joined(Found(done, w))) + [c]
    ensures |Joined(Found(done, w + [c]))| <= MAX_PHRASE_BYTES
  {
    hide IsWhitespace, IsAsciiLowercase;
    LowercaseIsNoSpace(c);
    assert w + ([c] + rest) == w + [c] + rest;
    JoinedPush(done, w + [c]);
    JoinedPush(done, w);
    JoinedLength(done + [w + [c]]);
  }

  lemma EndOfInput(done: seq<string>, w: string)
    requires Scanned(done, w) && |Found(done, w)| <= MAX_WORDS
    ensures done + Words(w) == Found(done, w) && Acceptable(Found(done, w))
  {
    hide IsWhitespace, IsAsciiLowercase;
    if w != "" {
      WordAtEnd(w);
    }
  }
}
