/**
 * The line and word scanning of read_map: each input line is a sequence of
 * words separated by spaces and tabs, and the words of line k are appended,
 * in order, to the k-th list of the map.
 *
 * The line buffer fgets fills is the line followed by a NUL; `At` reads it.
 * Every line ends with a newline (rule C of the input format), so the
 * scanner never looks past that NUL.
 */
module Parse {
  import opened Wrappers
  import opened Lists

  /** The three ways read_map gives up (each a call to terminate). */
  datatype ParseError = TooManyLines | InvalidInput | WordTooBig

  /** isalnum for the characters of the C locale. */
  predicate IsAlnum(c: char)
  {
    ('a' <= c <= 'z') || ('A' <= c <= 'Z') || ('0' <= c <= '9')
  }

  /** is_valid: a character that may appear in a word. */
  predicate IsValid(c: char): (b: bool)
    ensures b ==> c != '\0' && c != '\n' && !IsWhitespace(c)
  {
    IsAlnum(c) || c == '_'
  }

  /** is_whitespace: a character that separates words. */
  predicate IsWhitespace(c: char): (b: bool)
    ensures b ==> c != '\0' && c != '\n'
  {
    c == ' ' || c == '\t'
  }

  /** A line as fgets returns it under rule C: it ends with its newline. */
  predicate EndsLine(line: string)
  {
    |line| > 0 && line[|line| - 1] == '\n'
  }

  /** The buffer holding `line`: its characters, then the terminating NUL. */
  function At(line: string, i: nat): char
    requires i <= |line|
  {
    if i < |line| then line[i] else '\0'
  }

  /** The first position from `i` on that is not a space or a tab. */
  function SkipSpace(line: string, i: nat): (r: nat)
    requires i <= |line|
    ensures i <= r <= |line| && !IsWhitespace(At(line, r))
    ensures forall k :: i <= k < r ==> IsWhitespace(line[k])
    decreases |line| - i
  {
    if i < |line| && IsWhitespace(line[i]) then SkipSpace(line, i + 1) else i
  }

  /** The first position from `i` on that holds no word character. */
  function WordEnd(line: string, i: nat): (r: nat)
    requires i <= |line|
    ensures i <= r <= |line| && !IsValid(At(line, r))
    ensures forall k :: i <= k < r ==> IsValid(line[k])
    decreases |line| - i
  {
    if i < |line| && IsValid(line[i]) then WordEnd(line, i + 1) else i
  }

  /** A word read_map accepts: one to `maxWord` word characters. */
  ghost predicate Word(w: string, maxWord: nat)
  {
    1 <= |w| <= maxWord && forall k :: 0 <= k < |w| ==> IsValid(w[k])
  }

  /** `done` followed by the outcome of the rest of a scan. */
  function Then<T>(done: seq<T>, r: Result<seq<T>, ParseError>): Result<seq<T>, ParseError>
  {
    match r
    case Ok(rest) => Ok(done + rest)
    case Err(e) => Err(e)
  }

  /**
   * The words of `line` from position `i` on, as the scanning loops of
   * read_map find them, or the error that stops them.  After a word the
   * next character is passed over without being looked at.
   */
  function Scan(line: string, i: nat, maxWord: nat): (r: Result<seq<string>, ParseError>)
    requires EndsLine(line) && i <= |line|
    ensures r.Ok? ==> forall k :: 0 <= k < |r.value| ==> Word(r.value[k], maxWord)
    ensures r != Err(TooManyLines)
    decreases |line| - i
  {
    if At(line, i) == '\0' then Ok([])
    else
      var s := SkipSpace(line, i);
      if !IsValid(At(line, s)) then Err(InvalidInput)
      else
        var e := WordEnd(line, s);
        assert e < |line| by {
          assert !IsValid(line[|line| - 1]);
        }
        if e - s > maxWord then Err(WordTooBig)
        else Then([line[s..e]], Scan(line, e + 1, maxWord))
  }

  /** A scan that finds no word character after the blanks fails. */
  lemma ScanInvalid(line: string, i: nat, s: nat, maxWord: nat)
    requires EndsLine(line) && i <= |line| && At(line, i) != '\0'
    requires s == SkipSpace(line, i) && !IsValid(At(line, s))
    ensures Scan(line, i, maxWord) == Err(InvalidInput)
  {
  }

  /** A scan whose next word is too long fails. */
  lemma ScanTooBig(line: string, i: nat, s: nat, maxWord: nat)
    requires EndsLine(line) && i <= |line| && At(line, i) != '\0'
    requires s == SkipSpace(line, i) && IsValid(At(line, s)) && WordEnd(line, s) - s > maxWord
    ensures Scan(line, i, maxWord) == Err(WordTooBig)
  {
  }

  /** A scan that finds a word of acceptable length goes on after it. */
  lemma ScanWord(line: string, i: nat, s: nat, e: nat, maxWord: nat)
    requires EndsLine(line) && i <= |line| && At(line, i) != '\0'
    requires s == SkipSpace(line, i) && IsValid(At(line, s)) && e == WordEnd(line, s) && e - s <= maxWord
    ensures e < |line| && Scan(line, i, maxWord) == Then([line[s..e]], Scan(line, e + 1, maxWord))
  {
    assert !IsValid(line[|line| - 1]);
  }

  /** Nothing done before: the outcome itself. */
  lemma ThenNothing<T>(r: Result<seq<T>, ParseError>)
    ensures Then([], r) == r
  {
    if r.Ok? {
      assert [] + r.value == r.value;
    }
  }

  /** Two pieces done one after the other. */
  lemma ThenThen<T>(a: seq<T>, b: seq<T>, r: Result<seq<T>, ParseError>)
    ensures Then(a, Then(b, r)) == Then(a + b, r)
  {
    if r.Ok? {
      assert a + (b + r.value) == (a + b) + r.value;
    }
  }

  /** The loop of read_map that skips the spaces and tabs before a word. */
  method SkipBlanks(line: string, from: nat) returns (i: nat)
    requires from <= |line|
    ensures i == SkipSpace(line, from)
  {
    i := from;
    while IsWhitespace(At(line, i))
      invariant from <= i <= |line| && SkipSpace(line, i) == SkipSpace(line, from)
      decreases |line| - i
    {
      i := i + 1;
    }
  }

  /**
   * The inner loop of read_map that copies one word, starting at its first
   * character `s`, into a fresh buffer of `maxWord + 1` characters and
   * terminates it by a NUL; `i` ends on the character after the word.
   */
  method ReadWord(line: string, s: nat, maxWord: nat) returns (r: Result<string, ParseError>, i: nat)
    requires EndsLine(line) && s < |line| && IsValid(line[s])
    ensures WordEnd(line, s) - s > maxWord ==> r == Err(WordTooBig)
    ensures WordEnd(line, s) - s <= maxWord ==> r == Ok(line[s..WordEnd(line, s)]) && i == WordEnd(line, s)
  {
    i := s;
    var word := new char[maxWord + 1];
    var j := 0;
    while IsValid(At(line, i))
      invariant s <= i <= |line| && WordEnd(line, i) == WordEnd(line, s)
      invariant IsValid(At(line, i)) ==> j == i - s && j <= maxWord && word[..j] == line[s..i]
      invariant !IsValid(At(line, i)) ==> j == i - s + 1 && 1 <= j <= maxWord + 1 && word[..j - 1] == line[s..i]
      decreases |line| - i
    {
      if j >= maxWord {
        return Err(WordTooBig), i;
      }
      word[j] := line[i];
      if !IsValid(At(line, i + 1)) {
        j := j + 1;
        word[j] := '\0';
      }
      i := i + 1;
      j := j + 1;
    }
    r := Ok(word[..j - 1]);
  }

  /**
   * One pass of the loop of read_map over a buffer, up to the insertion:
   * skips the blanks at `i`, rejects a character that cannot start a word,
   * copies the word and steps over the character that follows it.
   */
  method NextWord(line: string, i: nat, maxWord: nat) returns (r: Result<string, ParseError>, next: nat)
    requires EndsLine(line) && i <= |line| && At(line, i) != '\0'
    ensures r.Err? ==> Scan(line, i, maxWord) == Err(r.error)
    ensures r.Ok? ==> i < next <= |line| && Scan(line, i, maxWord) == Then([r.value], Scan(line, next, maxWord))
  {
    var s := SkipBlanks(line, i);
    if !IsValid(At(line, s)) {
      ScanInvalid(line, i, s, maxWord);
      return Err(InvalidInput), s;
    }
    var e;
    r, e := ReadWord(line, s, maxWord);
    if r.Err? {
      ScanTooBig(line, i, s, maxWord);
      return r, e;
    }
    ghost var w := r.value;
    assert w == line[s..e];
    ScanWord(line, i, s, e, maxWord);
    next := e + 1;
    assert Scan(line, i, maxWord) == Then([w], Scan(line, next, maxWord));
  }

  /**
   * The words of one line appended to `list`, as the loops of read_map do
   * for one buffer filled by fgets.
   */
  method ReadLine(line: string, maxWord: nat, list: List<string>) returns (r: Result<(), ParseError>)
    requires EndsLine(line) && list.Valid()
    modifies list.Repr
    ensures list.Valid() && fresh(list.Repr - old(list.Repr))
    ensures Scan(line, 0, maxWord).Ok? ==> r == Ok(()) && list.Contents == old(list.Contents) + Scan(line, 0, maxWord).value
    ensures Scan(line, 0, maxWord).Err? ==> r == Err(Scan(line, 0, maxWord).error)
  {
    var i := 0;
    ghost var added: seq<string> := [];
    ThenNothing(Scan(line, 0, maxWord));
    while At(line, i) != '\0'
      invariant i <= |line|
      invariant list.Valid() && fresh(list.Repr - old(list.Repr))
      invariant list.Contents == old(list.Contents) + added
      invariant Scan(line, 0, maxWord) == Then(added, Scan(line, i, maxWord))
      decreases |line| - i
    {
      var word, next := NextWord(line, i, maxWord);
      if word.Err? {
        return Err(word.error);
      }
      list.InsertLast(Some(word.value));
      ThenThen(added, [word.value], Scan(line, next, maxWord));
      added := added + [word.value];
      i := next;
    }
    r := Ok(());
  }

  /** A run of spaces and tabs, possibly empty. */
  ghost predicate Blank(g: string)
  {
    forall k :: 0 <= k < |g| ==> IsWhitespace(g[k])
  }

  /**
   * What may follow a word before the next one: a character that is
   * neither a word character nor the NUL (passed over unchecked), then
   * spaces and tabs.
   */
  ghost predicate Separator(g: string)
  {
    |g| >= 1 && !IsValid(g[0]) && g[0] != '\0' && Blank(g[1..])
  }

  /** The words `ws` laid out with the separators `seps` between them, then the newline. */
  function Joined(ws: seq<string>, seps: seq<string>): string
    requires |ws| == |seps| + 1
    decreases |seps|
  {
    if seps == [] then ws[0] + "\n" else ws[0] + seps[0] + Joined(ws[1..], seps[1..])
  }

  /** The words `ws`, each followed by its separator: the part of a line a scan has passed. */
  function Laid(ws: seq<string>, seps: seq<string>): string
    requires |ws| == |seps|
    decreases |seps|
  {
    if seps == [] then "" else ws[0] + seps[0] + Laid(ws[1..], seps[1..])
  }

  /** The blanks from `i` end exactly at `j`. */
  lemma {:induction false} SkipSpaceIs(line: string, i: nat, j: nat)
    requires i <= j <= |line| && !IsWhitespace(At(line, j))
    requires forall k :: i <= k < j ==> IsWhitespace(line[k])
    ensures SkipSpace(line, i) == j
    decreases j - i
  {
    if i < j {
      SkipSpaceIs(line, i + 1, j);
    }
  }

  /** The word from `i` ends exactly at `j`. */
  lemma {:induction false} WordEndIs(line: string, i: nat, j: nat)
    requires i <= j <= |line| && !IsValid(At(line, j))
    requires forall k :: i <= k < j ==> IsValid(line[k])
    ensures WordEnd(line, i) == j
    decreases j - i
  {
    if i < j {
      WordEndIs(line, i + 1, j);
    }
  }

  /** A laid-out line ends with its newline. */
  lemma {:induction false} JoinedEndsLine(ws: seq<string>, seps: seq<string>)
    requires |ws| == |seps| + 1
    ensures EndsLine(Joined(ws, seps))
    decreases |seps|
  {
    if seps != [] {
      JoinedEndsLine(ws[1..], seps[1..]);
    }
  }

  /** A slice of a sequence, element by element. */
  lemma Pointwise<T>(line: seq<T>, a: nat, b: nat, piece: seq<T>)
    requires a <= b <= |line| && line[a..b] == piece
    ensures forall k :: a <= k < b ==> line[k] == piece[k - a]
  {
  }

  /**
   * One word of a scan: blanks `lead` at `i`, then the word `w`, then a
   * character that ends it; the scan takes `w` and goes on after that character.
   */
  lemma ScanFirst(line: string, i: nat, lead: string, w: string, next: nat, maxWord: nat)
    requires EndsLine(line) && Blank(lead) && Word(w, maxWord)
    requires next == i + |lead| + |w| + 1 && next <= |line|
    requires line[i..i + |lead|] == lead && line[i + |lead|..next - 1] == w
    requires !IsValid(line[next - 1])
    ensures Scan(line, i, maxWord) == Then([w], Scan(line, next, maxWord))
  {
    var s := i + |lead|;
    var e := s + |w|;
    Pointwise(line, i, s, lead);
    Pointwise(line, s, e, w);
    assert line[s] == w[0];
    assert At(line, i) != '\0' by {
      if |lead| > 0 {
        assert line[i] == lead[0];
      }
    }
    SkipSpaceIs(line, i, s);
    WordEndIs(line, s, e);
    ScanWord(line, i, s, e, maxWord);
  }

  /** The first word followed by the rest of the words. */
  lemma ThenFirst(ws: seq<string>, r: Result<seq<string>, ParseError>)
    requires |ws| >= 1 && r == Ok(ws[1..])
    ensures Then([ws[0]], r) == Ok(ws)
  {
    assert [ws[0]] + ws[1..] == ws;
  }

  /** The two pieces of a suffix made of two pieces. */
  lemma Halve<T>(line: seq<T>, i: nat, a: seq<T>, b: seq<T>)
    requires i <= |line| && line[i..] == a + b
    ensures i + |a| <= |line| && line[i..i + |a|] == a && line[i + |a|..] == b
  {
    assert line[i..i + |a|] == (a + b)[..|a|];
    assert line[i + |a|..] == (a + b)[|a|..];
  }

  /** The three pieces of a suffix made of three pieces. */
  lemma Split<T>(line: seq<T>, i: nat, a: seq<T>, b: seq<T>, c: seq<T>)
    requires i <= |line| && line[i..] == a + b + c
    ensures i + |a| + |b| <= |line|
    ensures line[i..i + |a|] == a && line[i + |a|..i + |a| + |b|] == b && line[i + |a| + |b|..] == c
  {
    assert line[i..i + |a|] == (a + b + c)[..|a|];
    assert line[i + |a|..i + |a| + |b|] == (a + b + c)[|a|..|a| + |b|];
    assert line[i + |a| + |b|..] == (a + b + c)[|a| + |b|..];
  }

  /** The last word of a laid-out suffix: the scan takes it and stops at the NUL. */
  lemma JoinedLast(line: string, i: nat, lead: string, w: string, maxWord: nat)
    requires EndsLine(line) && i <= |line| && Blank(lead) && Word(w, maxWord)
    requires line[i..] == lead + w + "\n"
    ensures Scan(line, i, maxWord) == Ok([w])
  {
    var e := i + |lead| + |w|;
    Split(line, i, lead, w, "\n");
    assert line[e] == '\n' && e + 1 == |line|;
    ScanFirst(line, i, lead, w, e + 1, maxWord);
    assert At(line, e + 1) == '\0';
    assert Scan(line, e + 1, maxWord) == Ok([]);
    assert [w] + [] == [w];
  }

  /** A word of a laid-out suffix followed by a separator: the scan takes it and goes on after the separator's first character. */
  lemma JoinedStep(line: string, i: nat, lead: string, w: string, sep: string, rest: string, maxWord: nat) returns (next: nat)
    requires EndsLine(line) && i <= |line| && Blank(lead) && Word(w, maxWord) && |sep| >= 1 && !IsValid(sep[0])
    requires line[i..] == lead + w + (sep + rest)
    ensures next <= |line| && line[next..] == sep[1..] + rest
    ensures Scan(line, i, maxWord) == Then([w], Scan(line, next, maxWord))
  {
    next := i + |lead| + |w| + 1;
    StepPieces(line, i, lead, w, sep, rest);
    ScanFirst(line, i, lead, w, next, maxWord);
  }

  /** Where the pieces of a suffix `lead + w + (sep + rest)` lie in the line. */
  lemma StepPieces<T>(line: seq<T>, i: nat, lead: seq<T>, w: seq<T>, sep: seq<T>, rest: seq<T>)
    requires i <= |line| && |sep| >= 1 && line[i..] == lead + w + (sep + rest)
    ensures i + |lead| + |w| < |line|
    ensures line[i..i + |lead|] == lead && line[i + |lead|..i + |lead| + |w|] == w
    ensures line[i + |lead| + |w|] == sep[0] && line[i + |lead| + |w| + 1..] == sep[1..] + rest
  {
    var e := i + |lead| + |w|;
    assert sep + rest == [sep[0]] + (sep[1..] + rest);
    Split(line, i, lead, w, sep + rest);
    Halve(line, e, [sep[0]], sep[1..] + rest);
  }

  /** The round trip from position `i`: scanning a laid-out suffix gives back its words. */
  lemma {:induction false} ScanJoinedAt(line: string, i: nat, lead: string, ws: seq<string>, seps: seq<string>, maxWord: nat)
    requires EndsLine(line) && i <= |line|
    requires |ws| == |seps| + 1 && Blank(lead)
    requires forall k :: 0 <= k < |ws| ==> Word(ws[k], maxWord)
    requires forall k :: 0 <= k < |seps| ==> Separator(seps[k])
    requires line[i..] == lead + Joined(ws, seps)
    ensures Scan(line, i, maxWord) == Ok(ws)
    decreases |seps|
  {
    if seps == [] {
      JoinedLast(line, i, lead, ws[0], maxWord);
      assert [ws[0]] == ws;
    } else {
      var next := JoinedStep(line, i, lead, ws[0], seps[0], Joined(ws[1..], seps[1..]), maxWord);
      ScanJoinedAt(line, next, seps[0][1..], ws[1..], seps[1..], maxWord);
      ThenFirst(ws, Scan(line, next, maxWord));
    }
  }

  /**
   * The round trip: a line made of acceptable words, separated as the
   * scanner allows and preceded by blanks, scans to exactly those words.
   */
  lemma ScanJoined(lead: string, ws: seq<string>, seps: seq<string>, maxWord: nat)
    requires |ws| == |seps| + 1 && Blank(lead)
    requires forall k :: 0 <= k < |ws| ==> Word(ws[k], maxWord)
    requires forall k :: 0 <= k < |seps| ==> Separator(seps[k])
    ensures EndsLine(lead + Joined(ws, seps)) && Scan(lead + Joined(ws, seps), 0, maxWord) == Ok(ws)
  {
    JoinedEndsLine(ws, seps);
    var line := lead + Joined(ws, seps);
    assert line[0..] == line;
    ScanJoinedAt(line, 0, lead, ws, seps, maxWord);
  }

  /** A line of nothing but blanks, the empty line included, is invalid input. */
  lemma BlankLineRejected(lead: string, maxWord: nat)
    requires Blank(lead)
    ensures EndsLine(lead + "\n") && Scan(lead + "\n", 0, maxWord) == Err(InvalidInput)
  {
    var line := lead + "\n";
    assert line[0..] == line;
    BlankEndAt(line, 0, lead, maxWord);
  }

  /**
   * The scan of a suffix that starts with laid-out words: it takes those
   * words and goes on after the first character of the last separator.
   */
  lemma {:induction false} ScanLaidAt(line: string, i: nat, lead: string, ws: seq<string>, seps: seq<string>,
                                      tail: string, maxWord: nat) returns (next: nat, gap: string)
    requires EndsLine(line) && i <= |line|
    requires |ws| == |seps| && Blank(lead)
    requires forall k :: 0 <= k < |ws| ==> Word(ws[k], maxWord)
    requires forall k :: 0 <= k < |seps| ==> Separator(seps[k])
    requires line[i..] == lead + Laid(ws, seps) + tail
    ensures next <= |line| && Blank(gap) && line[next..] == gap + tail
    ensures Scan(line, i, maxWord) == Then(ws, Scan(line, next, maxWord))
    decreases |seps|
  {
    if seps == [] {
      next, gap := i, lead;
      assert lead + Laid(ws, seps) + tail == lead + tail;
      ThenNothing(Scan(line, i, maxWord));
    } else {
      var rest := Laid(ws[1..], seps[1..]);
      assert Laid(ws, seps) == ws[0] + seps[0] + rest;
      Regroup(lead, ws[0], seps[0], rest, tail);
      var after := JoinedStep(line, i, lead, ws[0], seps[0], rest + tail, maxWord);
      next, gap := ScanLaidAt(line, after, seps[0][1..], ws[1..], seps[1..], tail, maxWord);
      ThenThen([ws[0]], ws[1..], Scan(line, next, maxWord));
      assert [ws[0]] + ws[1..] == ws;
    }
  }

  /** The scan of a whole line that starts with laid-out words, as ScanLaidAt states it from position 0. */
  lemma ScanLaid(line: string, lead: string, ws: seq<string>, seps: seq<string>, tail: string, maxWord: nat)
    returns (next: nat, gap: string)
    requires |ws| == |seps| && Blank(lead) && EndsLine(tail)
    requires forall k :: 0 <= k < |ws| ==> Word(ws[k], maxWord)
    requires forall k :: 0 <= k < |seps| ==> Separator(seps[k])
    requires line == lead + Laid(ws, seps) + tail
    ensures EndsLine(line) && next <= |line| && Blank(gap) && line[next..] == gap + tail
    ensures Scan(line, 0, maxWord) == Then(ws, Scan(line, next, maxWord))
  {
    assert line[|line| - 1] == tail[|tail| - 1];
    assert line[0..] == line;
    next, gap := ScanLaidAt(line, 0, lead, ws, seps, tail, maxWord);
  }

  /** The same pieces, grouped as the first word and its separator, then the rest. */
  lemma Regroup<T>(lead: seq<T>, w: seq<T>, sep: seq<T>, rest: seq<T>, tail: seq<T>)
    requires |sep| >= 1
    ensures lead + (w + sep + rest) + tail == lead + w + (sep + (rest + tail))
    ensures sep[1..] + (rest + tail) == sep[1..] + rest + tail
  {
  }

  /** An error met after laid-out words is the outcome of the whole scan. */
  lemma ThenError(ws: seq<string>, r: Result<seq<string>, ParseError>, e: ParseError)
    requires r == Err(e)
    ensures Then(ws, r) == Err(e)
  {
  }

  /** Blanks `gap` at `i`, then a word longer than `maxWord`: the scan stops there. */
  lemma LongWordAt(line: string, i: nat, gap: string, w: string, rest: string, maxWord: nat)
    requires EndsLine(line) && i <= |line| && Blank(gap)
    requires |w| > maxWord && forall k :: 0 <= k < |w| ==> IsValid(w[k])
    requires |rest| >= 1 && !IsValid(rest[0])
    requires line[i..] == gap + w + rest
    ensures Scan(line, i, maxWord) == Err(WordTooBig)
  {
    var s := i + |gap|;
    Split(line, i, gap, w, rest);
    assert line[s] == w[0];
    assert At(line, i) != '\0' by {
      if |gap| > 0 {
        assert line[i] == gap[0];
      }
    }
    assert forall k :: i <= k < s ==> line[k] == gap[k - i];
    SkipSpaceIs(line, i, s);
    assert forall k :: s <= k < s + |w| ==> line[k] == w[k - s];
    assert line[s + |w|] == rest[0];
    WordEndIs(line, s, s + |w|);
    ScanTooBig(line, i, s, maxWord);
  }

  /**
   * A word longer than `maxWord` characters stops the scan, wherever it
   * stands: after any number of acceptable words and separators.
   */
  lemma LongWordRejected(lead: string, ws: seq<string>, seps: seq<string>, w: string, rest: string, maxWord: nat)
    requires |ws| == |seps| && Blank(lead)
    requires forall k :: 0 <= k < |ws| ==> Word(ws[k], maxWord)
    requires forall k :: 0 <= k < |seps| ==> Separator(seps[k])
    requires |w| > maxWord && forall k :: 0 <= k < |w| ==> IsValid(w[k])
    requires EndsLine(rest) && !IsValid(rest[0])
    ensures var line := lead + Laid(ws, seps) + w + rest;
      EndsLine(line) && Scan(line, 0, maxWord) == Err(WordTooBig)
  {
    var line := lead + Laid(ws, seps) + w + rest;
    assert (w + rest)[|w + rest| - 1] == rest[|rest| - 1];
    var next, gap := ScanLaid(line, lead, ws, seps, w + rest, maxWord);
    assert line[next..] == gap + w + rest;
    LongWordAt(line, next, gap, w, rest, maxWord);
    ThenError(ws, Scan(line, next, maxWord), WordTooBig);
  }

  /** The character after a word is passed over unchecked: "a#b" holds two words. */
  lemma SkippedSeparator(maxWord: nat)
    requires maxWord >= 1
    ensures Scan("a#b\n", 0, maxWord) == Ok(["a", "b"])
  {
    assert Word("a", maxWord) && Word("b", maxWord) && Separator("#");
    ScanJoined("", ["a", "b"], ["#"], maxWord);
    assert "" + Joined(["a", "b"], ["#"]) == "a#b\n";
  }

  /** Only one character is passed over: a second one is invalid input. */
  lemma DoubleSeparatorRejected(maxWord: nat)
    requires maxWord >= 1
    ensures Scan("a##b\n", 0, maxWord) == Err(InvalidInput)
  {
    var line := "a##b\n";
    SkipSpaceIs(line, 0, 0);
    WordEndIs(line, 0, 1);
    ScanWord(line, 0, 0, 1, maxWord);
    SkipSpaceIs(line, 2, 2);
    ScanInvalid(line, 2, 2, maxWord);
  }

  /** Nothing but blanks from `i` to the newline: the scan finds no word and fails. */
  lemma BlankEndAt(line: string, i: nat, gap: string, maxWord: nat)
    requires EndsLine(line) && i <= |line| && Blank(gap)
    requires line[i..] == gap + "\n"
    ensures Scan(line, i, maxWord) == Err(InvalidInput)
  {
    Halve(line, i, gap, "\n");
    assert At(line, i) != '\0' by {
      if |gap| > 0 {
        assert line[i] == gap[0];
      }
    }
    assert forall k :: i <= k < i + |gap| ==> line[k] == gap[k - i];
    SkipSpaceIs(line, i, i + |gap|);
    ScanInvalid(line, i, i + |gap|, maxWord);
  }

  /** Blanks `gap` at `i`, a word, then blanks `b` up to the newline: the scan fails after the word. */
  lemma TrailingBlankAt(line: string, i: nat, gap: string, w: string, b: string, maxWord: nat)
    requires EndsLine(line) && i <= |line| && Blank(gap) && Word(w, maxWord) && |b| >= 1 && Blank(b)
    requires line[i..] == gap + (w + b + "\n")
    ensures Scan(line, i, maxWord) == Err(InvalidInput)
  {
    Regroup(gap, w, b, "", "\n");
    var after := JoinedStep(line, i, gap, w, b, "\n", maxWord);
    BlankEndAt(line, after, b[1..], maxWord);
    ThenError([w], Scan(line, after, maxWord), InvalidInput);
  }

  /**
   * Blanks just before the newline are invalid input, after any number of
   * acceptable words and separators: the first blank after the last word is
   * passed over, and the rest lead to the newline instead of a word.
   */
  lemma TrailingBlankRejected(lead: string, ws: seq<string>, seps: seq<string>, w: string, b: string, maxWord: nat)
    requires |ws| == |seps| && Blank(lead)
    requires forall k :: 0 <= k < |ws| ==> Word(ws[k], maxWord)
    requires forall k :: 0 <= k < |seps| ==> Separator(seps[k])
    requires Word(w, maxWord) && |b| >= 1 && Blank(b)
    ensures var line := lead + Laid(ws, seps) + w + b + "\n";
      EndsLine(line) && Scan(line, 0, maxWord) == Err(InvalidInput)
  {
    var line := lead + Laid(ws, seps) + w + b + "\n";
    var tail := w + b + "\n";
    Regroup(lead, Laid(ws, seps), w, b, "\n");
    assert tail[|tail| - 1] == '\n';
    var next, gap := ScanLaid(line, lead, ws, seps, tail, maxWord);
    TrailingBlankAt(line, next, gap, w, b, maxWord);
    ThenError(ws, Scan(line, next, maxWord), InvalidInput);
  }

  /**
   * The map read from `lines`, one sequence of words per line, or the
   * error of the first line that fails; a line beyond the first `room`
   * is one too many.
   */
  function Tokenize(lines: seq<string>, maxWord: nat, room: nat): (r: Result<seq<seq<string>>, ParseError>)
    requires forall k :: 0 <= k < |lines| ==> EndsLine(lines[k])
    ensures r.Ok? ==> |r.value| == |lines| <= room
    decreases |lines|
  {
    if lines == [] then Ok([])
    else if room == 0 then Err(TooManyLines)
    else match Scan(lines[0], 0, maxWord)
      case Err(e) => Err(e)
      case Ok(ws) => Then([ws], Tokenize(lines[1..], maxWord, room - 1))
  }

  /** A successful reading holds, line by line, the words Scan finds. */
  lemma {:induction false} TokenizeScans(lines: seq<string>, maxWord: nat, room: nat)
    requires forall k :: 0 <= k < |lines| ==> EndsLine(lines[k])
    requires Tokenize(lines, maxWord, room).Ok?
    ensures forall k :: 0 <= k < |lines| ==> Scan(lines[k], 0, maxWord) == Ok(Tokenize(lines, maxWord, room).value[k])
    decreases |lines|
  {
    if lines != [] {
      TokenizeScans(lines[1..], maxWord, room - 1);
      assert forall k :: 1 <= k < |lines| ==> lines[1..][k - 1] == lines[k];
    }
  }

  /** Reading succeeds exactly when there is room for every line and every line scans. */
  lemma {:induction false} TokenizeOk(lines: seq<string>, maxWord: nat, room: nat)
    requires forall k :: 0 <= k < |lines| ==> EndsLine(lines[k])
    ensures Tokenize(lines, maxWord, room).Ok? <==>
              |lines| <= room && forall k :: 0 <= k < |lines| ==> Scan(lines[k], 0, maxWord).Ok?
    decreases |lines|
  {
    if lines != [] && room > 0 {
      TokenizeOk(lines[1..], maxWord, room - 1);
      assert forall k :: 1 <= k < |lines| ==> lines[1..][k - 1] == lines[k];
    }
  }

  /**
   * Too many lines is the error exactly when the first `room` lines all
   * scan and at least one more line follows them.
   */
  lemma {:induction false} TokenizeTooMany(lines: seq<string>, maxWord: nat, room: nat)
    requires forall k :: 0 <= k < |lines| ==> EndsLine(lines[k])
    ensures Tokenize(lines, maxWord, room) == Err(TooManyLines) <==>
              |lines| > room && forall k :: 0 <= k < room ==> Scan(lines[k], 0, maxWord).Ok?
    decreases |lines|
  {
    if lines != [] && room > 0 {
      TokenizeTooMany(lines[1..], maxWord, room - 1);
      assert forall k :: 1 <= k < |lines| ==> lines[1..][k - 1] == lines[k];
    }
  }

  /**
   * Reading stops at the first line that does not scan, with that line's
   * error, when every line before it scans and fits.
   */
  lemma {:induction false} TokenizeStops(lines: seq<string>, maxWord: nat, room: nat, n: nat)
    requires forall k :: 0 <= k < |lines| ==> EndsLine(lines[k])
    requires n < |lines| && n < room && Scan(lines[n], 0, maxWord).Err?
    requires forall k :: 0 <= k < n ==> Scan(lines[k], 0, maxWord).Ok?
    ensures Tokenize(lines, maxWord, room) == Err(Scan(lines[n], 0, maxWord).error)
    decreases n
  {
    if n > 0 {
      assert forall k :: 0 <= k < n - 1 ==> lines[1..][k] == lines[k + 1];
      TokenizeStops(lines[1..], maxWord, room - 1, n - 1);
    }
  }

  /** Lines that all scan and fit read as their words. */
  lemma TokenizeAll(lines: seq<string>, maxWord: nat, room: nat, words: seq<seq<string>>)
    requires forall k :: 0 <= k < |lines| ==> EndsLine(lines[k])
    requires |words| == |lines| <= room
    requires forall k :: 0 <= k < |lines| ==> Scan(lines[k], 0, maxWord) == Ok(words[k])
    ensures Tokenize(lines, maxWord, room) == Ok(words)
  {
    TokenizeOk(lines, maxWord, room);
    TokenizeScans(lines, maxWord, room);
    var r := Tokenize(lines, maxWord, room);
    assert r.Ok? && |r.value| == |words|;
    assert forall k :: 0 <= k < |lines| ==> r.value[k] == words[k];
    assert r.value == words;
  }

  /**
   * The lists of the map are valid, hold `words` line by line and are
   * empty past them; their footprints are apart from one another and from
   * the array.
   */
  ghost predicate Holds(lists: array<List<string>>, words: seq<seq<string>>)
    reads lists, set a | 0 <= a < lists.Length :: lists[a]
    reads set a, o | 0 <= a < lists.Length && o in lists[a].Repr :: o
  {
    && |words| <= lists.Length
    && (forall a :: 0 <= a < lists.Length ==> lists[a].Valid() && lists !in lists[a].Repr)
    && (forall a :: 0 <= a < lists.Length ==> lists[a].Contents == if a < |words| then words[a] else [])
    && (forall a, b :: 0 <= a < b < lists.Length ==> lists[a].Repr !! lists[b].Repr)
  }

  /** The allocation loop of read_map: `count` new empty lists. */
  method CreateLists(count: nat) returns (lists: array<List<string>>, ghost owned: set<object>)
    ensures fresh(lists) && lists.Length == count && Holds(lists, [])
    ensures fresh(owned) && forall a :: 0 <= a < count ==> lists[a].Repr <= owned
  {
    var made: seq<List<string>> := [];
    owned := {};
    while |made| < count
      invariant |made| <= count && fresh(owned)
      invariant forall a :: 0 <= a < |made| ==> made[a].Valid() && made[a].Contents == [] && made[a].Repr <= owned
      invariant forall a, b :: 0 <= a < b < |made| ==> made[a].Repr !! made[b].Repr
      decreases count - |made|
    {
      var list := new List<string>();
      made := made + [list];
      owned := owned + list.Repr;
    }
    lists := new List<string>[count](a requires 0 <= a < count => made[a]);
    assert forall a :: 0 <= a < count ==> lists[a] == made[a];
  }

  /** One pass of read_map's line loop: the words of `line` read into the `n`-th list of the map. */
  method FillLine(lists: array<List<string>>, n: nat, line: string, maxWord: nat, ghost got: seq<seq<string>>)
      returns (r: Result<(), ParseError>)
    requires EndsLine(line) && Holds(lists, got) && |got| == n < lists.Length
    modifies lists[n].Repr
    ensures Scan(line, 0, maxWord).Err? ==> r == Err(Scan(line, 0, maxWord).error)
    ensures Scan(line, 0, maxWord).Ok? ==> r == Ok(()) && Holds(lists, got + [Scan(line, 0, maxWord).value])
    ensures forall a :: 0 <= a < lists.Length ==> lists[a] == old(lists[a])
    ensures forall a :: 0 <= a < lists.Length && a != n ==> lists[a].Repr == old(lists[a].Repr)
    ensures fresh(lists[n].Repr - old(lists[n].Repr))
  {
    r := ReadLine(line, maxWord, lists[n]);
    forall a | 0 <= a < lists.Length && a != n
      ensures lists[a].Repr == old(lists[a].Repr) && lists[a].Contents == old(lists[a].Contents) && lists[a].Valid()
    {
      assert lists[a] in old(lists[a].Repr);
    }
  }

  /**
   * FillLine on line `n` of `lines`, given that the lines before it scanned
   * as `got`; `grown` is what the list of line `n` gained.
   */
  method ReadNext(lists: array<List<string>>, lines: seq<string>, n: nat, maxWord: nat,
                  ghost got: seq<seq<string>>, ghost owned: set<object>)
      returns (r: Result<(), ParseError>, ghost now: seq<seq<string>>, ghost grown: set<object>)
    requires forall k :: 0 <= k < |lines| ==> EndsLine(lines[k])
    requires Holds(lists, got) && |got| == n < |lines| && n < lists.Length
    requires forall k :: 0 <= k < n ==> Scan(lines[k], 0, maxWord) == Ok(got[k])
    requires forall a :: 0 <= a < lists.Length ==> lists[a].Repr <= owned
    modifies lists[n].Repr
    ensures r.Err? ==> Scan(lines[n], 0, maxWord) == Err(r.error)
    ensures r.Ok? ==> |now| == n + 1 && Holds(lists, now)
    ensures r.Ok? ==> forall k :: 0 <= k < n + 1 ==> Scan(lines[k], 0, maxWord) == Ok(now[k])
    ensures fresh(grown) && forall a :: 0 <= a < lists.Length ==> lists[a].Repr <= owned + grown
  {
    r := FillLine(lists, n, lines[n], maxWord, got);
    now := got;
    if r.Ok? {
      now := got + [Scan(lines[n], 0, maxWord).value];
      assert forall k :: 0 <= k < n ==> now[k] == got[k];
    }
    grown := lists[n].Repr - old(lists[n].Repr);
  }

  /**
   * read_map over the lines fgets would return: the array of
   * `maxCountries` lists and the number of countries read, or the error
   * that terminates the reading.
   */
  method ReadMap(lines: seq<string>, maxWord: nat, maxCountries: nat) returns (r: Result<nat, ParseError>, lists: array<List<string>>)
    requires forall k :: 0 <= k < |lines| ==> EndsLine(lines[k])
    ensures fresh(lists) && lists.Length == maxCountries
    ensures Tokenize(lines, maxWord, maxCountries).Err? ==> r == Err(Tokenize(lines, maxWord, maxCountries).error)
    ensures Tokenize(lines, maxWord, maxCountries).Ok? ==> r == Ok(|lines|) && Holds(lists, Tokenize(lines, maxWord, maxCountries).value)
  {
    ghost var owned;
    lists, owned := CreateLists(maxCountries);
    var n := 0;
    ghost var got: seq<seq<string>> := [];
    while n < |lines|
      invariant n <= |lines| && n <= maxCountries && |got| == n
      invariant forall k :: 0 <= k < n ==> Scan(lines[k], 0, maxWord) == Ok(got[k])
      invariant Holds(lists, got)
      invariant fresh(owned) && forall a :: 0 <= a < maxCountries ==> lists[a].Repr <= owned
    {
      if n >= maxCountries {
        TokenizeTooMany(lines, maxWord, maxCountries);
        return Err(TooManyLines), lists;
      }
      var res;
      ghost var grown;
      res, got, grown := ReadNext(lists, lines, n, maxWord, got, owned);
      if res.Err? {
        TokenizeStops(lines, maxWord, maxCountries, n);
        return Err(res.error), lists;
      }
      owned := owned + grown;
      n := n + 1;
    }
    TokenizeAll(lines, maxWord, maxCountries, got);
    r := Ok(n);
  }
}
