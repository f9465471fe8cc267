/**
 * Header lines: the whitespace-delimited words of a line, as a C-locale
 * input stream splits them, and the read identifier taken from the first
 * word of a header line.
 */
module Header {

  /** The characters `istringstream >>` skips in the C locale: space, tab,
      newline, vertical tab, form feed and carriage return. */
  predicate IsSpace(c: char) {
    c == ' ' || c == '\t' || c == '\n' || c == '\U{B}' || c == '\U{C}' || c == '\r'
  }

  predicate AllSpace(s: string) {
    forall i :: 0 <= i < |s| ==> IsSpace(s[i])
  }

  predicate NoSpace(s: string) {
    forall i :: 0 <= i < |s| ==> !IsSpace(s[i])
  }

  /** What is left of `s` once its leading whitespace is skipped. */
  function SkipSpace(s: string): (r: string)
    ensures |r| <= |s|
    ensures r == [] || !IsSpace(r[0])
  {
    if s != [] && IsSpace(s[0]) then SkipSpace(s[1..]) else s
  }

  /** The longest whitespace-free prefix of `s`. */
  function TakeWord(s: string): (r: string)
    ensures |r| <= |s|
    ensures r == [] <==> s == [] || IsSpace(s[0])
  {
    if s == [] || IsSpace(s[0]) then [] else [s[0]] + TakeWord(s[1..])
  }

  /** The word `stream >> word` extracts; empty when the line holds none. */
  function FirstWord(s: string): string {
    TakeWord(SkipSpace(s))
  }

  /** All whitespace-delimited words of `s`, in order; their number is the
      distance between an `istream_iterator<string>` over the line and the
      end iterator. */
  function Words(s: string): (ws: seq<string>)
    ensures |ws| <= |s|
    decreases |s|
  {
    var t := SkipSpace(s);
    if t == [] then []
    else
      var w := TakeWord(t);
      [w] + Words(t[|w|..])
  }

  /** A header whose word count triggers the multiple-words warning. */
  predicate MultiWord(header: string) {
    |Words(header)| > 1
  }

  /** A non-blank character, later a whitespace character, and later again
      a non-blank character: the shape of a line with a second word. */
  predicate HasSecondWord(s: string) {
    exists i, j, k :: 0 <= i < j < k < |s| && !IsSpace(s[i]) && IsSpace(s[j]) && !IsSpace(s[k])
  }

  /** The read identifier of a header line: its first word with its first
      character erased, whatever that character is (the `@` marker is not
      checked); an empty word stays empty. */
  function Identifier(header: string): (id: string)
    ensures header == [] || |id| < |header|
  {
    var word := FirstWord(header);
    if word == [] then [] else word[1..]
  }

  /** Words joined by single spaces: a line with exactly these words. */
  function Unwords(ws: seq<string>): string {
    if |ws| == 0 then []
    else if |ws| == 1 then ws[0]
    else ws[0] + " " + Unwords(ws[1..])
  }

  /** SkipSpace drops exactly the leading whitespace: what it drops is all
      whitespace and what it keeps is a suffix that starts with a word. */
  lemma {:induction false} SkipSpaceDropsSpace(s: string)
    ensures SkipSpace(s) == s[|s| - |SkipSpace(s)|..]
    ensures AllSpace(s[..|s| - |SkipSpace(s)|])
  {
    if s != [] && IsSpace(s[0]) {
      SkipSpaceDropsSpace(s[1..]);
      var n := |s| - |SkipSpace(s)|;
      assert s[..n] == [s[0]] + s[1..][..n - 1];
    }
  }

  /** TakeWord keeps exactly the longest whitespace-free prefix. */
  lemma {:induction false} TakeWordIsPrefix(s: string)
    ensures TakeWord(s) == s[..|TakeWord(s)|]
    ensures NoSpace(TakeWord(s))
    ensures |TakeWord(s)| == |s| || IsSpace(s[|TakeWord(s)|])
  {
    if s != [] && !IsSpace(s[0]) {
      TakeWordIsPrefix(s[1..]);
      assert TakeWord(s) == [s[0]] + TakeWord(s[1..]);
    }
  }

  lemma {:induction false} SkipSpaceAfter(sp: string, t: string)
    requires AllSpace(sp)
    ensures SkipSpace(sp + t) == SkipSpace(t)
  {
    if sp == [] {
      assert sp + t == t;
    } else {
      assert IsSpace(sp[0]) && (sp + t)[0] == sp[0];
      assert (sp + t)[1..] == sp[1..] + t;
      SkipSpaceAfter(sp[1..], t);
    }
  }

  lemma {:induction false} TakeWordOf(w: string, rest: string)
    requires NoSpace(w)
    requires rest == [] || IsSpace(rest[0])
    ensures TakeWord(w + rest) == w
  {
    if w != [] {
      assert (w + rest)[1..] == w[1..] + rest;
      TakeWordOf(w[1..], rest);
    }
  }

  /** The first word is empty exactly on a blank line; otherwise it is the
      whitespace-free run that starts at the first non-blank character and
      ends at the next whitespace or at the end of the line. */
  lemma FirstWordSpec(s: string)
    ensures FirstWord(s) == [] <==> AllSpace(s)
    ensures var t := SkipSpace(s);
      && AllSpace(s[..|s| - |t|]) && t == s[|s| - |t|..]
      && FirstWord(s) == t[..|FirstWord(s)|] && NoSpace(FirstWord(s))
      && (|FirstWord(s)| == |t| || IsSpace(t[|FirstWord(s)|]))
  {
    var t := SkipSpace(s);
    SkipSpaceDropsSpace(s);
    TakeWordIsPrefix(t);
    if t == [] {
      assert s[..|s|] == s;
    } else {
      assert s[|s| - |t|] == t[0];
    }
  }

  /** A header with a word: the identifier is that word less exactly one
      leading character. A blank or empty header: the identifier is empty. */
  lemma IdentifierIsWordTail(header: string)
    ensures AllSpace(header) ==> Identifier(header) == []
    ensures !AllSpace(header) ==>
      FirstWord(header) != [] && FirstWord(header) == [FirstWord(header)[0]] + Identifier(header)
  {
    FirstWordSpec(header);
  }

  /** The identifier of `sp + [marker] + id + rest` is exactly `id`: leading
      whitespace is skipped, the word ends at the first whitespace, and only
      the word's first character is removed, whatever it is, so any later
      `@` in `id` is kept. */
  lemma IdentifierOfHeader(sp: string, marker: char, id: string, rest: string)
    requires AllSpace(sp)
    requires !IsSpace(marker) && NoSpace(id)
    requires rest == [] || IsSpace(rest[0])
    ensures Identifier(sp + [marker] + id + rest) == id
  {
    var word := [marker] + id;
    assert sp + [marker] + id + rest == sp + (word + rest);
    SkipSpaceAfter(sp, word + rest);
    TakeWordOf(word, rest);
  }

  /** A line has no words exactly when it is blank, its first word is the
      one `stream >> word` extracts, and every word is non-empty and holds
      no whitespace. */
  lemma {:induction false} WordsAreWords(s: string)
    ensures Words(s) == [] <==> AllSpace(s)
    ensures Words(s) != [] ==> Words(s)[0] == FirstWord(s)
    ensures forall k :: 0 <= k < |Words(s)| ==> Words(s)[k] != [] && NoSpace(Words(s)[k])
    decreases |s|
  {
    FirstWordSpec(s);
    var t := SkipSpace(s);
    if t != [] {
      var w := TakeWord(t);
      TakeWordIsPrefix(t);
      var rest := Words(t[|w|..]);
      WordsAreWords(t[|w|..]);
      assert Words(s) == [w] + rest;
      forall k | 0 < k < |Words(s)|
        ensures Words(s)[k] == rest[k - 1]
      {
      }
    }
  }

  /** A line that starts with a word followed by nothing or whitespace
      splits into that word and the words of the rest. */
  lemma WordsOfWord(w: string, rest: string)
    requires w != [] && NoSpace(w)
    requires rest == [] || IsSpace(rest[0])
    ensures Words(w + rest) == [w] + Words(rest)
  {
    var line := w + rest;
    assert line[0] == w[0];
    assert SkipSpace(line) == line;
    TakeWordOf(w, rest);
    assert line[|w|..] == rest;
  }

  /** Splitting a line made of the given words gives those words back. */
  lemma {:induction false} WordsOfUnwords(ws: seq<string>)
    requires forall k :: 0 <= k < |ws| ==> ws[k] != [] && NoSpace(ws[k])
    ensures Words(Unwords(ws)) == ws
  {
    if |ws| == 1 {
      WordsOfWord(ws[0], []);
      assert ws[0] + [] == ws[0];
    } else if |ws| > 1 {
      assert [ws[0]] + ws[1..] == ws;
      var rest := Unwords(ws[1..]);
      assert Unwords(ws) == ws[0] + (" " + rest);
      assert (" " + rest)[0] == ' ';
      WordsOfWord(ws[0], " " + rest);
      SkipSpaceAfter(" ", rest);
      assert Words(" " + rest) == Words(rest);
      forall k | 0 <= k < |ws| - 1
        ensures ws[1..][k] != [] && NoSpace(ws[1..][k])
      {
        assert ws[1..][k] == ws[k + 1];
      }
      WordsOfUnwords(ws[1..]);
    }
  }

  /** The word count exceeds one exactly when the line has a non-blank
      character, then whitespace, then a non-blank character again, however
      many whitespace characters of whichever kinds separate the words and
      surround them. */
  lemma MultiWordSpec(s: string)
    ensures MultiWord(s) <==> HasSecondWord(s)
  {
    if MultiWord(s) {
      MultiWordHasSecondWord(s);
    }
    if HasSecondWord(s) {
      SecondWordMakesMultiWord(s);
    }
  }

  lemma MultiWordHasSecondWord(s: string)
    requires MultiWord(s)
    ensures HasSecondWord(s)
  {
    var t := SkipSpace(s);
    SkipSpaceDropsSpace(s);
    var n := |s| - |t|;
    assert t != [];
    var w := TakeWord(t);
    TakeWordIsPrefix(t);
    var rest := t[|w|..];
    assert Words(s) == [w] + Words(rest);
    WordsAreWords(rest);
    var r :| 0 <= r < |rest| && !IsSpace(rest[r]);
    assert IsSpace(rest[0]) by {
      assert rest[0] == t[|w|];
    }
    assert s[n] == t[0] && s[n + |w|] == rest[0] && s[n + |w| + r] == rest[r];
  }

  lemma SecondWordMakesMultiWord(s: string)
    requires HasSecondWord(s)
    ensures MultiWord(s)
  {
    var i, j, k :| 0 <= i < j < k < |s| && !IsSpace(s[i]) && IsSpace(s[j]) && !IsSpace(s[k]);
    var t := SkipSpace(s);
    var w := TakeWord(t);
    SecondWordAfterFirst(s, i, j, k);
    assert Words(s) == [w] + Words(t[|w|..]);
    WordsAreWords(t[|w|..]);
  }

  /** With a non-blank character at `i`, whitespace at `j` and a non-blank
      character at `k`, something non-blank follows the first word. */
  lemma SecondWordAfterFirst(s: string, i: nat, j: nat, k: nat)
    requires i < j < k < |s| && !IsSpace(s[i]) && IsSpace(s[j]) && !IsSpace(s[k])
    ensures var t := SkipSpace(s);
      t != [] && !AllSpace(t[|TakeWord(t)|..])
  {
    var t := SkipSpace(s);
    SkipSpaceDropsSpace(s);
    TakeWordIsPrefix(t);
    SecondWordPast(s, |s| - |t|, t, TakeWord(t), i, j, k);
  }

  /** With `s` split into leading whitespace `s[..n]` and the rest `t`,
      which starts with a whitespace-free word `w`, the whitespace at `j`
      and the non-blank character at `k` lie after that word. */
  lemma SecondWordPast(s: string, n: nat, t: string, w: string, i: nat, j: nat, k: nat)
    requires n <= |s| && AllSpace(s[..n]) && t == s[n..]
    requires |w| <= |t| && w == t[..|w|] && NoSpace(w)
    requires i < j < k < |s| && !IsSpace(s[i]) && IsSpace(s[j]) && !IsSpace(s[k])
    ensures t != [] && !AllSpace(t[|w|..])
  {
    assert forall p :: 0 <= p < n ==> s[..n][p] == s[p];
    assert forall p :: n <= p < n + |w| ==> w[p - n] == s[p];
    assert n + |w| <= j;
    assert t[|w|..][k - n - |w|] == s[k];
  }
}
