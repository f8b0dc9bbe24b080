/** `ReadExecutionPath` without the file handling: the per-line tokenizer for
    `STATE-EVENT>STATE-...` lines and the line loop with its 200-line cap.
    Lines arrive already decoded, one string per line. */
module Reader {
  import opened Types
  import opened Trim

  /** The line counter value at which reading fails. */
  const MaxLines: nat := 200

  predicate IsDelim(c: char) {
    c == '-' || c == '>'
  }

  predicate NoDelim(s: string) {
    '-' !in s && '>' !in s
  }

  /** Number of occurrences of `c` in `s`. */
  function Count<T(==)>(s: seq<T>, c: T): nat
  {
    if s == [] then 0 else Count(s[..|s| - 1], c) + (if s[|s| - 1] == c then 1 else 0)
  }

  /** The delimiter characters of `s`, in order. */
  function Delims(s: string): (d: seq<char>)
    ensures |d| <= |s|
  {
    if s == [] then []
    else Delims(s[..|s| - 1]) + (if IsDelim(s[|s| - 1]) then [s[|s| - 1]] else [])
  }

  /** The raw texts between the delimiters of `s`: always one more than there are delimiters. */
  function Segments(s: string): (segs: seq<string>)
    ensures |segs| == |Delims(s)| + 1
  {
    if s == [] then [""]
    else
      var p := Segments(s[..|s| - 1]);
      var c := s[|s| - 1];
      if IsDelim(c) then p + [""] else p[..|p| - 1] + [p[|p| - 1] + [c]]
  }

  /** `pickupWord` applied to every element. */
  function Trims(ss: seq<string>): seq<string>
  {
    if ss == [] then [] else Trims(ss[..|ss| - 1]) + [PickupWord(ss[|ss| - 1])]
  }

  /** `Trims` applies `PickupWord` to every element. */
  lemma {:induction false} TrimsSpec(ss: seq<string>)
    ensures |Trims(ss)| == |ss|
    ensures forall k :: 0 <= k < |ss| ==> Trims(ss)[k] == PickupWord(ss[k])
    decreases |ss|
  {
    if ss != [] {
      TrimsSpec(ss[..|ss| - 1]);
    }
  }

  /** In state mode (an even number of delimiters seen) only `-` is allowed, in event mode only `>`. */
  function ExpectedDelim(j: nat): char {
    if j % 2 == 0 then '-' else '>'
  }

  /** Delimiter `j` is where the line goes wrong: it has the wrong kind, or it is a `-` after empty state text. */
  predicate FailsAt(d: seq<char>, segs: seq<string>, j: nat)
    requires |segs| == |d| + 1
  {
    j < |d| && (d[j] != ExpectedDelim(j) || (j % 2 == 0 && PickupWord(segs[j]) == ""))
  }

  /** The outcome of a line from its delimiters and segments, scanning the delimiters from `j` on. */
  function Verdict(d: seq<char>, segs: seq<string>, j: nat): Result<seq<string>, LineError>
    requires |segs| == |d| + 1 && j <= |d|
    decreases |d| - j
  {
    if j == |d| then (if j % 2 == 1 then Failure(BadFormat) else Success(Trims(segs)))
    else if d[j] != ExpectedDelim(j) then Failure(BadFormat)
    else if j % 2 == 0 && PickupWord(segs[j]) == "" then Failure(EmptyKey)
    else Verdict(d, segs, j + 1)
  }

  /** Reference definition of one non-comment line's token list (or its error). */
  function Tokenize(line: string): Result<seq<string>, LineError>
  {
    Verdict(Delims(line), Segments(line), 0)
  }

  /** A line the tokenizer accepts: delimiters `-`, `>`, `-`, `>`, ... ending with `>`,
      and the state text before every `-` non-empty after trimming. */
  predicate WellFormed(line: string)
  {
    var d, segs := Delims(line), Segments(line);
    && |d| % 2 == 0
    && (forall j :: 0 <= j < |d| ==> d[j] == ExpectedDelim(j))
    && (forall j :: 0 <= j < |d| && j % 2 == 0 ==> PickupWord(segs[j]) != "")
  }

  // ---------------------------------------------------------------------------
  // Facts about delimiters and segments

  /** A prefix of `s` has a prefix of the delimiters, and the same completed segments. */
  lemma {:induction false} PrefixSplit(s: string, k: nat)
    requires k <= |s|
    ensures |Delims(s[..k])| <= |Delims(s)|
    ensures Delims(s[..k]) == Delims(s)[..|Delims(s[..k])|]
    ensures forall j :: 0 <= j < |Delims(s[..k])| ==> Segments(s[..k])[j] == Segments(s)[j]
  {
    if k == |s| {
      assert s[..k] == s;
    } else {
      var t := s[..|s| - 1];
      assert s[..k] == t[..k];
      PrefixSplit(t, k);
    }
  }

  /** No segment contains a delimiter. */
  lemma {:induction false} SegmentsNoDelim(s: string)
    ensures forall k :: 0 <= k < |Segments(s)| ==> NoDelim(Segments(s)[k])
  {
    if s != [] {
      var t := s[..|s| - 1];
      SegmentsNoDelim(t);
      var p := Segments(t);
      var c := s[|s| - 1];
      if !IsDelim(c) {
        assert NoDelim(p[|p| - 1]);
        assert NoDelim(p[|p| - 1] + [c]);
      }
    }
  }

  /** A line without delimiters is a single segment. */
  lemma {:induction false} NoDelimSegments(s: string)
    requires NoDelim(s)
    ensures Delims(s) == [] && Segments(s) == [s]
  {
    if s != [] {
      var t := s[..|s| - 1];
      assert s[|s| - 1] in s;
      assert NoDelim(t) by {
        assert forall c :: c in t ==> c in s;
      }
      NoDelimSegments(t);
      assert t + [s[|s| - 1]] == s;
    }
  }

  /** A delimiter is counted the same in the line and in its delimiter sequence. */
  lemma {:induction false} CountDelims(s: string, c: char)
    requires IsDelim(c)
    ensures Count(s, c) == Count(Delims(s), c)
  {
    if s != [] {
      var t := s[..|s| - 1];
      CountDelims(t, c);
      var x := s[|s| - 1];
      if IsDelim(x) {
        assert (Delims(t) + [x])[..|Delims(t)|] == Delims(t);
      } else {
        assert Delims(s) == Delims(t);
      }
    }
  }

  /** An alternating delimiter sequence of even length has as many `-` as `>`, half of each. */
  lemma {:induction false} AlternatingCount(d: seq<char>)
    requires |d| % 2 == 0
    requires forall j :: 0 <= j < |d| ==> d[j] == ExpectedDelim(j)
    ensures Count(d, '-') == |d| / 2 && Count(d, '>') == |d| / 2
  {
    if d != [] {
      var e := d[..|d| - 2];
      AlternatingCount(e);
      assert d[..|d| - 1][..|d| - 2] == e;
      assert d[|d| - 2] == '-' && d[|d| - 1] == '>';
    }
  }

  // ---------------------------------------------------------------------------
  // Properties of the tokenizer

  lemma {:induction false} VerdictSuccess(d: seq<char>, segs: seq<string>, j: nat)
    requires |segs| == |d| + 1 && j <= |d|
    ensures Verdict(d, segs, j).Success? <==>
              && |d| % 2 == 0
              && (forall k :: j <= k < |d| ==> d[k] == ExpectedDelim(k))
              && (forall k :: j <= k < |d| && k % 2 == 0 ==> PickupWord(segs[k]) != "")
    ensures Verdict(d, segs, j).Success? ==> Verdict(d, segs, j).value == Trims(segs)
    decreases |d| - j
  {
    if j < |d| {
      VerdictSuccess(d, segs, j + 1);
    }
  }

  /** The tokenizer accepts exactly the well-formed lines, and then yields their trimmed segments. */
  lemma TokenizeAccepts(line: string)
    ensures Tokenize(line).Success? <==> WellFormed(line)
    ensures Tokenize(line).Success? ==> Tokenize(line).value == Trims(Segments(line))
  {
    VerdictSuccess(Delims(line), Segments(line), 0);
  }

  lemma {:induction false} VerdictFailure(d: seq<char>, segs: seq<string>, j: nat, e: LineError)
    requires |segs| == |d| + 1 && j <= |d|
    requires Verdict(d, segs, j) == Failure(e)
    ensures exists k :: j <= k <= |d| && (forall k' :: j <= k' < k ==> !FailsAt(d, segs, k')) &&
              ( (k < |d| && d[k] != ExpectedDelim(k) && e == BadFormat)
             || (k < |d| && d[k] == ExpectedDelim(k) && k % 2 == 0 && PickupWord(segs[k]) == "" && e == EmptyKey)
             || (k == |d| && k % 2 == 1 && e == BadFormat))
    decreases |d| - j
  {
    if j < |d| && !FailsAt(d, segs, j) {
      VerdictFailure(d, segs, j + 1, e);
      var k :| j + 1 <= k <= |d| && (forall k' :: j + 1 <= k' < k ==> !FailsAt(d, segs, k')) &&
              ( (k < |d| && d[k] != ExpectedDelim(k) && e == BadFormat)
             || (k < |d| && d[k] == ExpectedDelim(k) && k % 2 == 0 && PickupWord(segs[k]) == "" && e == EmptyKey)
             || (k == |d| && k % 2 == 1 && e == BadFormat));
      assert forall k' :: j <= k' < k ==> !FailsAt(d, segs, k');
    }
  }

  /** The error is decided by the first delimiter where the line goes wrong: a `-` in event mode
      or a `>` in state mode is an invalid format, a `-` after empty state text an empty keyword;
      with no such delimiter, a line that ends in event mode is an invalid format. */
  lemma TokenizeRejects(line: string, e: LineError)
    requires Tokenize(line) == Failure(e)
    ensures var d, segs := Delims(line), Segments(line);
            exists k :: 0 <= k <= |d| && (forall k' :: 0 <= k' < k ==> !FailsAt(d, segs, k')) &&
              ( (k < |d| && d[k] != ExpectedDelim(k) && e == BadFormat)
             || (k < |d| && d[k] == '-' && k % 2 == 0 && PickupWord(segs[k]) == "" && e == EmptyKey)
             || (k == |d| && k % 2 == 1 && e == BadFormat))
  {
    VerdictFailure(Delims(line), Segments(line), 0, e);
  }

  /** On success: `2k+1` tokens for `k` dashes and as many `>`; no token holds a delimiter or
      has surrounding whitespace; every state token before a `-` is non-empty. */
  lemma TokenizeShape(line: string)
    requires Tokenize(line).Success?
    ensures var ts := Tokenize(line).value;
            && Count(line, '-') == Count(line, '>')
            && |ts| == 2 * Count(line, '-') + 1
            && (forall k :: 0 <= k < |ts| ==> NoDelim(ts[k]) && Trimmed(ts[k]))
            && (forall k :: 0 <= k < |ts| - 1 && k % 2 == 0 ==> ts[k] != "")
  {
    TokenizeAccepts(line);
    var d, segs := Delims(line), Segments(line);
    var ts := Tokenize(line).value;
    AlternatingCount(d);
    CountDelims(line, '-');
    CountDelims(line, '>');
    SegmentsNoDelim(line);
    TrimsSpec(segs);
    forall k | 0 <= k < |ts| ensures NoDelim(ts[k]) && Trimmed(ts[k]) {
      PickupWordChars(segs[k], '-');
      PickupWordChars(segs[k], '>');
      PickupWordInfix(segs[k]);
    }
  }

  /** A blank (or all-whitespace) line is accepted as the single empty state. */
  lemma BlankLine(line: string)
    requires AllSpace(line)
    ensures Tokenize(line) == Success([""])
  {
    assert NoDelim(line) by {
      forall k | 0 <= k < |line| ensures !IsDelim(line[k]) {
        assert IsSpace(line[k]);
      }
    }
    NoDelimSegments(line);
    PickupWordEmpty(line);
    assert PickupWord(line) == "";
    assert Trims([line]) == Trims([]) + [PickupWord(line)];
    assert Trims([line]) == [""];
    assert Verdict([], [line], 0) == Success(Trims([line]));
    assert Tokenize(line) == Verdict([], [line], 0);
  }

  // ---------------------------------------------------------------------------
  // The per-line loop

  /** With no failing delimiter before `n`, the scan from 0 agrees with the scan from `n`. */
  lemma {:induction false} VerdictSkip(d: seq<char>, segs: seq<string>, n: nat)
    requires |segs| == |d| + 1 && n <= |d|
    requires forall k :: 0 <= k < n ==> !FailsAt(d, segs, k)
    ensures Verdict(d, segs, 0) == Verdict(d, segs, n)
    decreases n
  {
    if n > 0 {
      VerdictSkip(d, segs, n - 1);
      assert !FailsAt(d, segs, n - 1);
    }
  }

  lemma TrimsSnoc(ss: seq<string>, x: string)
    ensures Trims(ss + [x]) == Trims(ss) + [PickupWord(x)]
  {
    assert (ss + [x])[..|ss|] == ss;
  }

  /** No delimiter of a scanned prefix has failed so far. */
  predicate PrefixOk(dp: seq<char>, sp: seq<string>)
    requires |sp| == |dp| + 1
  {
    forall k :: 0 <= k < |dp| ==> !FailsAt(dp, sp, k)
  }

  /** Whether delimiter `k` fails depends only on delimiter `k` and segment `k`. */
  lemma FailsAtAgree(d1: seq<char>, s1: seq<string>, d2: seq<char>, s2: seq<string>, n: nat)
    requires |s1| == |d1| + 1 && |s2| == |d2| + 1 && n <= |d1| && n <= |d2|
    requires forall k :: 0 <= k < n ==> d1[k] == d2[k] && s1[k] == s2[k]
    ensures forall k :: 0 <= k < n ==> FailsAt(d1, s1, k) == FailsAt(d2, s2, k)
  {
  }

  /** Reading a delimiter at `i` closes the open segment; a prefix without failures keeps none. */
  lemma StepDelim(line: string, i: nat)
    requires i < |line| && IsDelim(line[i])
    ensures var p, n := line[..i], |Delims(line[..i])|;
            && Delims(line[..i + 1]) == Delims(p) + [line[i]]
            && Segments(line[..i + 1]) == Segments(p) + [""]
            && (PrefixOk(Delims(p), Segments(p)) && !FailsAt(Delims(p) + [line[i]], Segments(p) + [""], n)
                ==> PrefixOk(Delims(p) + [line[i]], Segments(p) + [""]))
  {
    var p := line[..i];
    assert line[..i + 1] == p + [line[i]];
    assert (p + [line[i]])[..|p|] == p;
    var n := |Delims(p)|;
    FailsAtAgree(Delims(p), Segments(p), Delims(p) + [line[i]], Segments(p) + [""], n);
  }

  /** Reading any other character extends the open segment. */
  lemma StepChar(line: string, i: nat)
    requires i < |line| && !IsDelim(line[i])
    ensures var p, n := line[..i], |Delims(line[..i])|;
            && Delims(line[..i + 1]) == Delims(p)
            && Segments(line[..i + 1]) == Segments(p)[..n] + [Segments(p)[n] + [line[i]]]
            && (PrefixOk(Delims(p), Segments(p)) ==> PrefixOk(Delims(line[..i + 1]), Segments(line[..i + 1])))
  {
    var p := line[..i];
    assert line[..i + 1] == p + [line[i]];
    assert (p + [line[i]])[..|p|] == p;
    var n := |Delims(p)|;
    FailsAtAgree(Delims(p), Segments(p), Delims(line[..i + 1]), Segments(line[..i + 1]), n);
  }

  /** Up to the delimiter read at `i`, the scanned prefix and the whole line agree on failures. */
  lemma AgreeAfterDelim(line: string, i: nat)
    requires i < |line| && IsDelim(line[i])
    ensures var dp, sp, n := Delims(line[..i]), Segments(line[..i]), |Delims(line[..i])|;
            && n < |Delims(line)| && Delims(line)[n] == line[i]
            && forall k :: 0 <= k <= n ==> FailsAt(dp + [line[i]], sp + [""], k) == FailsAt(Delims(line), Segments(line), k)
  {
    var dp, sp := Delims(line[..i]), Segments(line[..i]);
    var n := |dp|;
    StepDelim(line, i);
    PrefixSplit(line, i + 1);
    var d, segs := Delims(line), Segments(line);
    forall k | 0 <= k <= n ensures (dp + [line[i]])[k] == d[k] && (sp + [""])[k] == segs[k] {
      assert (dp + [line[i]])[k] == Delims(line[..i + 1])[k];
    }
    FailsAtAgree(dp + [line[i]], sp + [""], d, segs, n + 1);
  }

  /** A delimiter that fails right after a failure-free prefix decides the line's error. */
  lemma DelimFails(line: string, i: nat)
    requires i < |line| && IsDelim(line[i])
    requires PrefixOk(Delims(line[..i]), Segments(line[..i]))
    requires FailsAt(Delims(line[..i]) + [line[i]], Segments(line[..i]) + [""], |Delims(line[..i])|)
    ensures var n := |Delims(line[..i])|;
            Tokenize(line) == if line[i] != ExpectedDelim(n) then Failure(BadFormat) else Failure(EmptyKey)
  {
    var dp, sp := Delims(line[..i]), Segments(line[..i]);
    var n := |dp|;
    var d, segs := Delims(line), Segments(line);
    AgreeAfterDelim(line, i);
    FailsAtAgree(dp, sp, dp + [line[i]], sp + [""], n);
    assert forall k :: 0 <= k < n ==> !FailsAt(d, segs, k);
    VerdictSkip(d, segs, n);
    assert FailsAt(d, segs, n);
  }

  /** A failure-free scan of the whole line decides by the final mode. */
  lemma EndOfLine(line: string)
    requires PrefixOk(Delims(line), Segments(line))
    ensures Tokenize(line) ==
              if |Delims(line)| % 2 == 1 then Failure(BadFormat) else Success(Trims(Segments(line)))
  {
    VerdictSkip(Delims(line), Segments(line), |Delims(line)|);
  }

  lemma CloseWord(sp: seq<string>, n: nat, word: string)
    requires |sp| == n + 1 && sp[n] == word
    ensures Trims((sp + [""])[..n + 1]) == Trims(sp[..n]) + [PickupWord(word)]
  {
    assert (sp + [""])[..n + 1] == sp;
    assert sp == sp[..n] + [word];
    TrimsSnoc(sp[..n], word);
  }

  /** The loop's `currentType` after `n` delimiters. */
  function Mode(n: nat): TextType {
    if n % 2 == 0 then StatusText else EventText
  }

  /** Each delimiter flips the mode; the mode decides which delimiter is expected. */
  lemma ModeStep(n: nat)
    ensures Mode(n + 1) == if Mode(n) == StatusText then EventText else StatusText
    ensures ExpectedDelim(n) == if Mode(n) == StatusText then '-' else '>'
  {
  }

  /** The state of the character loop after `line[..i]`: `dp` and `sp` are the delimiters and
      segments read so far, `word` the open segment, `tokens` the closed ones trimmed, and no
      delimiter has failed. */
  ghost predicate Scanned(line: string, i: nat, dp: seq<char>, sp: seq<string>, tokens: seq<string>, word: string) {
    && i <= |line| && dp == Delims(line[..i]) && sp == Segments(line[..i])
    && word == sp[|dp|] && tokens == Trims(sp[..|dp|]) && PrefixOk(dp, sp)
  }

  lemma ScanStart(line: string)
    ensures Scanned(line, 0, [], [""], [], "")
  {
    assert line[..0] == [];
  }

  lemma ScanChar(line: string, i: nat, dp: seq<char>, sp: seq<string>, tokens: seq<string>, word: string)
    requires Scanned(line, i, dp, sp, tokens, word) && i < |line| && !IsDelim(line[i])
    ensures Scanned(line, i + 1, dp, sp[..|dp|] + [word + [line[i]]], tokens, word + [line[i]])
  {
    StepChar(line, i);
    var n := |dp|;
    assert (sp[..n] + [word + [line[i]]])[..n] == sp[..n];
  }

  /** A delimiter that does not fail closes the open word. */
  lemma ScanDelim(line: string, i: nat, dp: seq<char>, sp: seq<string>, tokens: seq<string>, word: string)
    requires Scanned(line, i, dp, sp, tokens, word) && i < |line| && IsDelim(line[i])
    requires !FailsAt(dp + [line[i]], sp + [""], |dp|)
    ensures Scanned(line, i + 1, dp + [line[i]], sp + [""], tokens + [PickupWord(word)], "")
  {
    StepDelim(line, i);
    CloseWord(sp, |dp|, word);
  }

  /** A delimiter that fails decides the line's error. */
  lemma ScanFails(line: string, i: nat, dp: seq<char>, sp: seq<string>, tokens: seq<string>, word: string)
    requires Scanned(line, i, dp, sp, tokens, word) && i < |line| && IsDelim(line[i])
    requires line[i] != ExpectedDelim(|dp|) || (line[i] == '-' && PickupWord(word) == "")
    ensures Tokenize(line) == if line[i] != ExpectedDelim(|dp|) then Failure(BadFormat) else Failure(EmptyKey)
  {
    DelimFails(line, i);
  }

  lemma ScanEnd(line: string, dp: seq<char>, sp: seq<string>, tokens: seq<string>, word: string)
    requires Scanned(line, |line|, dp, sp, tokens, word)
    ensures Tokenize(line) == if Mode(|dp|) == EventText then Failure(BadFormat) else Success(tokens + [PickupWord(word)])
  {
    assert line[..|line|] == line;
    EndOfLine(line);
    CloseWord(sp, |dp|, word);
    assert sp == (sp + [""])[..|dp| + 1];
  }

  /** The character loop of `ReadExecutionPath` for one non-comment line (main.go:91-129). */
  method TokenizeLine(line: string) returns (r: Result<seq<string>, LineError>)
    ensures r == Tokenize(line)
  {
    ghost var dp: seq<char>, sp: seq<string> := [], [""];
    var tokens: seq<string> := [];
    var currentType := StatusText;
    var word := "";
    var i := 0;
    ScanStart(line);
    while i < |line|
      invariant Scanned(line, i, dp, sp, tokens, word)
      invariant currentType == Mode(|dp|)
    {
      var c := line[i];
      ModeStep(|dp|);
      if c == '-' {
        if currentType != StatusText {
          ScanFails(line, i, dp, sp, tokens, word);
          return Failure(BadFormat);
        }
        currentType := EventText;
        var trimmedWord := PickupWord(word);
        if |trimmedWord| == 0 {
          ScanFails(line, i, dp, sp, tokens, word);
          return Failure(EmptyKey);
        }
        PickupWordIdempotent(word);
        ScanDelim(line, i, dp, sp, tokens, word);
        tokens := tokens + [PickupWord(trimmedWord)];
        word := "";
        dp, sp := dp + [c], sp + [""];
      } else if c == '>' {
        if currentType != EventText {
          ScanFails(line, i, dp, sp, tokens, word);
          return Failure(BadFormat);
        }
        currentType := StatusText;
        ScanDelim(line, i, dp, sp, tokens, word);
        tokens := tokens + [PickupWord(word)];
        word := "";
        dp, sp := dp + [c], sp + [""];
      } else {
        ScanChar(line, i, dp, sp, tokens, word);
        word := word + [c];
        sp := sp[..|dp|] + [word];
      }
      i := i + 1;
    }
    ScanEnd(line, dp, sp, tokens, word);
    if currentType != StatusText {
      return Failure(BadFormat);
    }
    tokens := tokens + [PickupWord(word)];
    r := Success(tokens);
  }

  // ---------------------------------------------------------------------------
  // The line loop

  predicate IsComment(line: string) {
    |line| > 0 && line[0] == '#'
  }

  /** Attach the file name and the 1-based line number to a line error. */
  function AtLine(file: string, e: LineError, lineNo: nat): ReadError {
    match e
    case BadFormat => InvalidFormat(file, lineNo)
    case EmptyKey => EmptyKeyword(file, lineNo)
  }

  /** Prefix `acc` to a successful read. */
  function Prepend(acc: seq<seq<string>>, r: Result<seq<seq<string>>, ReadError>): Result<seq<seq<string>>, ReadError>
  {
    match r
    case Success(v) => Success(acc + v)
    case Failure(e) => Failure(e)
  }

  lemma PrependTwice(a: seq<seq<string>>, b: seq<seq<string>>, r: Result<seq<seq<string>>, ReadError>)
    ensures Prepend(a, Prepend(b, r)) == Prepend(a + b, r)
    ensures Prepend([], r) == r
  {
    match r
    case Success(v) =>
      assert a + (b + v) == (a + b) + v;
      assert [] + v == v;
    case Failure(_) =>
  }

  /** Reference definition of reading `lines[k..]`: the line counter is `k + 1` on line `k`. */
  function ReadFrom(file: string, lines: seq<string>, k: nat): Result<seq<seq<string>>, ReadError>
    requires k <= |lines|
    decreases |lines| - k
  {
    if k == |lines| then Success([])
    else if k + 1 >= MaxLines then Failure(SizeLimit(file))
    else if IsComment(lines[k]) then ReadFrom(file, lines, k + 1)
    else match Tokenize(lines[k])
      case Failure(e) => Failure(AtLine(file, e, k + 1))
      case Success(ts) => Prepend([ts], ReadFrom(file, lines, k + 1))
  }

  function ReadLines(file: string, lines: seq<string>): Result<seq<seq<string>>, ReadError>
  {
    ReadFrom(file, lines, 0)
  }

  /** Line `k` (0-based) stops the read: the counter reaches the cap, or a data line is malformed. */
  predicate LineFails(lines: seq<string>, k: nat)
    requires k < |lines|
  {
    k + 1 >= MaxLines || (!IsComment(lines[k]) && Tokenize(lines[k]).Failure?)
  }

  /** The error that line `k` stops the read with. */
  function FailureAt(file: string, lines: seq<string>, k: nat): ReadError
    requires k < |lines| && LineFails(lines, k)
  {
    if k + 1 >= MaxLines then SizeLimit(file) else AtLine(file, Tokenize(lines[k]).error, k + 1)
  }

  /** The non-comment lines of `lines[k..]`, in order. */
  function DataLines(lines: seq<string>, k: nat): seq<string>
    requires k <= |lines|
    decreases |lines| - k
  {
    if k == |lines| then []
    else if IsComment(lines[k]) then DataLines(lines, k + 1)
    else [lines[k]] + DataLines(lines, k + 1)
  }

  lemma {:induction false} ReadFromSpec(file: string, lines: seq<string>, k: nat)
    requires k <= |lines|
    ensures ReadFrom(file, lines, k).Success? <==> forall j :: k <= j < |lines| ==> !LineFails(lines, j)
    ensures ReadFrom(file, lines, k).Success? ==>
              var v := ReadFrom(file, lines, k).value;
              |v| == |DataLines(lines, k)| &&
              forall j :: 0 <= j < |v| ==> Tokenize(DataLines(lines, k)[j]) == Success(v[j])
    ensures ReadFrom(file, lines, k).Failure? ==>
              exists j :: k <= j < |lines| && LineFails(lines, j) &&
                (forall j' :: k <= j' < j ==> !LineFails(lines, j')) &&
                ReadFrom(file, lines, k).error == FailureAt(file, lines, j)
    decreases |lines| - k
  {
    if k < |lines| {
      ReadFromSpec(file, lines, k + 1);
      if !LineFails(lines, k) && ReadFrom(file, lines, k + 1).Failure? {
        var j :| k + 1 <= j < |lines| && LineFails(lines, j) &&
                (forall j' :: k + 1 <= j' < j ==> !LineFails(lines, j')) &&
                ReadFrom(file, lines, k + 1).error == FailureAt(file, lines, j);
        assert forall j' :: k <= j' < j ==> !LineFails(lines, j');
      }
    }
  }

  /** Reading succeeds iff no line stops it, and then it holds one token list per non-comment
      line, in file order; as the counter counts comment lines too, at most 199 lines are accepted. */
  lemma ReadLinesAccepts(file: string, lines: seq<string>)
    ensures ReadLines(file, lines).Success? <==> forall j :: 0 <= j < |lines| ==> !LineFails(lines, j)
    ensures ReadLines(file, lines).Success? ==> |lines| < MaxLines
    ensures ReadLines(file, lines).Success? ==>
              var v := ReadLines(file, lines).value;
              |v| == |DataLines(lines, 0)| &&
              forall j :: 0 <= j < |v| ==> Tokenize(DataLines(lines, 0)[j]) == Success(v[j])
  {
    ReadFromSpec(file, lines, 0);
    if ReadLines(file, lines).Success? && |lines| >= MaxLines {
      assert LineFails(lines, |lines| - 1);
    }
  }

  /** The first line that stops the read decides the error, and no result is returned. */
  lemma ReadLinesRejects(file: string, lines: seq<string>)
    requires ReadLines(file, lines).Failure?
    ensures exists j :: 0 <= j < |lines| && LineFails(lines, j) &&
              (forall j' :: 0 <= j' < j ==> !LineFails(lines, j')) &&
              ReadLines(file, lines).error == FailureAt(file, lines, j)
  {
    ReadFromSpec(file, lines, 0);
  }

  /** The line loop of `ReadExecutionPath` over already-decoded lines (main.go:83-133). */
  method ReadExecutionPath(fileName: string, lines: seq<string>) returns (r: Result<seq<seq<string>>, ReadError>)
    ensures r == ReadLines(fileName, lines)
  {
    var exePath: seq<seq<string>> := [];
    var lineCount := 0;
    PrependTwice([], [], ReadFrom(fileName, lines, 0));
    while lineCount < |lines|
      invariant 0 <= lineCount <= |lines|
      invariant ReadLines(fileName, lines) == Prepend(exePath, ReadFrom(fileName, lines, lineCount))
    {
      var targetText := lines[lineCount];
      lineCount := lineCount + 1;
      if lineCount >= MaxLines {
        return Failure(SizeLimit(fileName));
      }
      if IsComment(targetText) {
        continue;
      }
      var tempExePath := TokenizeLine(targetText);
      if tempExePath.Failure? {
        return Failure(AtLine(fileName, tempExePath.error, lineCount));
      }
      PrependTwice(exePath, [tempExePath.value], ReadFrom(fileName, lines, lineCount));
      exePath := exePath + [tempExePath.value];
    }
    assert exePath + [] == exePath;
    return Success(exePath);
  }
}
