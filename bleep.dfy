/**
 * `bleep.py`: censoring a message against a list of banned words. The
 * banned words are read one per line, stripped and lower-cased; the
 * message is split on whitespace, every token whose lower-case form is
 * banned is replaced by as many asterisks as it has characters, and the
 * tokens are printed joined by single spaces.
 */
module Bleep {
  import opened Basics
  import opened Ascii

  /** No whitespace anywhere in `s`. */
  predicate NoSpace(s: string)
  {
    forall i :: 0 <= i < |s| ==> !IsSpace(s[i])
  }

  /** `s.lstrip()`. */
  function StripLeft(s: string): (r: string)
    ensures |r| <= |s| && (r == [] || !IsSpace(r[0]))
  {
    if s != [] && IsSpace(s[0]) then StripLeft(s[1..]) else s
  }

  /** `s.rstrip()`. */
  function StripRight(s: string): (r: string)
    ensures |r| <= |s| && (r == [] || !IsSpace(r[|r| - 1]))
  {
    if s != [] && IsSpace(s[|s| - 1]) then StripRight(s[..|s| - 1]) else s
  }

  /** `lstrip` removes the longest whitespace prefix and nothing else. */
  lemma {:induction false} StripLeftRemovesPrefix(s: string)
    ensures StripLeft(s) == s[|s| - |StripLeft(s)|..]
    ensures forall i :: 0 <= i < |s| - |StripLeft(s)| ==> IsSpace(s[i])
  {
    if s != [] && IsSpace(s[0]) {
      StripLeftRemovesPrefix(s[1..]);
    }
  }

  /** `rstrip` removes the longest whitespace suffix and nothing else. */
  lemma {:induction false} StripRightRemovesSuffix(s: string)
    ensures StripRight(s) == s[..|StripRight(s)|]
    ensures forall i :: |StripRight(s)| <= i < |s| ==> IsSpace(s[i])
  {
    if s != [] && IsSpace(s[|s| - 1]) {
      StripRightRemovesSuffix(s[..|s| - 1]);
    }
  }

  /** `s.strip()`. */
  function Strip(s: string): (r: string)
    ensures |r| <= |s| && (r == [] || !IsSpace(r[|r| - 1]))
  {
    StripRight(StripLeft(s))
  }

  /**
   * `strip` keeps a slice of `s` that neither starts nor ends with
   * whitespace, and everything it drops is whitespace.
   */
  lemma StripKeepsMiddle(s: string)
    ensures var r, i := Strip(s), |s| - |StripLeft(s)|;
      (r == [] || (!IsSpace(r[0]) && !IsSpace(r[|r| - 1]))) &&
      0 <= i <= |s| - |r| && r == s[i..i + |r|] &&
      (forall k :: 0 <= k < i ==> IsSpace(s[k])) && (forall k :: i + |r| <= k < |s| ==> IsSpace(s[k]))
  {
    var l := StripLeft(s);
    var r := Strip(s);
    StripIsSlice(s);
    StripLeftRemovesPrefix(s);
    StripDropsSuffix(s);
    if r != [] {
      assert r[0] == l[0];
    }
  }

  lemma StripIsSlice(s: string)
    ensures var r, i := Strip(s), |s| - |StripLeft(s)|; 0 <= i <= |s| - |r| && r == s[i..i + |r|]
  {
    var l := StripLeft(s);
    var r := Strip(s);
    var i := |s| - |l|;
    StripLeftRemovesPrefix(s);
    StripRightRemovesSuffix(l);
    assert l == s[i..] && r == l[..|r|];
  }

  lemma StripDropsSuffix(s: string)
    ensures var r, i := Strip(s), |s| - |StripLeft(s)|; forall k :: i + |r| <= k < |s| ==> IsSpace(s[k])
  {
    var l := StripLeft(s);
    var r := Strip(s);
    var i := |s| - |l|;
    StripLeftRemovesPrefix(s);
    StripRightRemovesSuffix(l);
    forall k | i + |r| <= k < |s|
      ensures IsSpace(s[k])
    {
      assert s[k] == l[k - i];
    }
  }

  /** Text that neither starts nor ends with whitespace is its own strip. */
  lemma StripUnchanged(s: string)
    requires s == [] || (!IsSpace(s[0]) && !IsSpace(s[|s| - 1]))
    ensures Strip(s) == s
  {
  }

  /** Lower-casing neither makes nor unmakes whitespace. */
  lemma LowerKeepsSpace(c: char)
    ensures IsSpace(ToLower(c)) <==> IsSpace(c)
  {
  }

  lemma LowerTwice(s: string)
    ensures Lower(Lower(s)) == Lower(s)
  {
  }

  /** The form a dictionary line is stored in. */
  function Normalise(line: string): (w: string)
    ensures |w| <= |line|
    ensures forall i :: 0 <= i < |w| ==> !IsUpper(w[i])
  {
    Lower(Strip(line))
  }

  /** A stored word is already stripped and lower-cased: normalising it again changes nothing. */
  lemma NormaliseIdempotent(line: string)
    ensures Normalise(Normalise(line)) == Normalise(line)
  {
    var w := Normalise(line);
    var s := Strip(line);
    StripKeepsMiddle(line);
    if w != [] {
      LowerKeepsSpace(s[0]);
      LowerKeepsSpace(s[|s| - 1]);
    }
    StripUnchanged(w);
    LowerTwice(s);
  }

  /** The dictionary's lines, each normalised. */
  function Normalised(lines: seq<string>): (ws: seq<string>)
    ensures |ws| == |lines|
  {
    seq(|lines|, i requires 0 <= i < |lines| => Normalise(lines[i]))
  }

  /** The words of `ws` as a set. */
  function Elements(ws: seq<string>): set<string>
  {
    set w | w in ws
  }

  /** The banned set after the lines `lines` of the dictionary. */
  function Banned(lines: seq<string>): set<string>
  {
    Elements(Normalised(lines))
  }

  /** A word is banned exactly when some dictionary line normalises to it. */
  lemma BannedMembers(lines: seq<string>, w: string)
    ensures w in Banned(lines) <==> exists i :: 0 <= i < |lines| && Normalise(lines[i]) == w
  {
    var ws := Normalised(lines);
    if w in ws {
      var i :| 0 <= i < |ws| && ws[i] == w;
    }
    if exists i :: 0 <= i < |lines| && Normalise(lines[i]) == w {
      var i :| 0 <= i < |lines| && Normalise(lines[i]) == w;
      assert ws[i] == w;
    }
  }

  lemma BannedSnoc(lines: seq<string>, i: nat)
    requires i < |lines|
    ensures Elements(Normalised(lines)[..i + 1]) == Elements(Normalised(lines)[..i]) + {Normalise(lines[i])}
  {
    var ws := Normalised(lines);
    assert ws[..i + 1] == ws[..i] + [ws[i]];
  }

  /** The loading loop: each line of the dictionary file added, normalised, to the set. */
  method LoadBanned(lines: seq<string>) returns (banned: set<string>)
    ensures banned == Banned(lines)
    ensures forall w :: w in banned ==> Normalise(w) == w
  {
    banned := {};
    for i := 0 to |lines|
      invariant banned == Elements(Normalised(lines)[..i])
      invariant forall w :: w in banned ==> Normalise(w) == w
    {
      BannedSnoc(lines, i);
      NormaliseIdempotent(lines[i]);
      banned := banned + {Normalise(lines[i])};
    }
    assert Normalised(lines)[..|lines|] == Normalised(lines);
  }

  /** The token at the start of `s`: its longest whitespace-free prefix. */
  function Token(s: string): (t: string)
    ensures |t| <= |s| && t == s[..|t|] && NoSpace(t)
    ensures |t| < |s| ==> IsSpace(s[|t|])
  {
    if s == [] || IsSpace(s[0]) then [] else [s[0]] + Token(s[1..])
  }

  /** `s.split()`: the maximal whitespace-free runs of `s`, in order. */
  function Split(s: string): (ws: seq<string>)
    ensures forall i :: 0 <= i < |ws| ==> ws[i] != [] && NoSpace(ws[i])
    decreases |s|
  {
    var t := StripLeft(s);
    if t == [] then []
    else
      var w := Token(t);
      assert w != [] by {
        assert !IsSpace(t[0]);
      }
      [w] + Split(t[|w|..])
  }

  /** `' '.join(ws)`. */
  function Join(ws: seq<string>): (r: string)
    ensures |r| + 1 >= |ws|
    ensures ws != [] ==> |ws[0]| <= |r| && r[..|ws[0]|] == ws[0]
    ensures |ws| > 1 ==> |ws[0]| < |r| && r[|ws[0]|] == ' '
  {
    if ws == [] then [] else if |ws| == 1 then ws[0] else ws[0] + " " + Join(ws[1..])
  }

  /** Tokens that a split could produce. */
  predicate Tokens(ws: seq<string>)
  {
    forall i :: 0 <= i < |ws| ==> ws[i] != [] && NoSpace(ws[i])
  }

  lemma {:induction false} TokenOf(w: string, tail: string)
    requires NoSpace(w) && (tail == [] || IsSpace(tail[0]))
    ensures Token(w + tail) == w
    decreases |w|
  {
    if w != [] {
      assert (w + tail)[1..] == w[1..] + tail;
      TokenOf(w[1..], tail);
    } else {
      assert w + tail == tail;
    }
  }

  lemma SplitSkipsSpace(c: char, s: string)
    requires IsSpace(c)
    ensures Split([c] + s) == Split(s)
  {
    assert ([c] + s)[1..] == s;
  }

  /** A token followed by whitespace or the end is split off first. */
  lemma SplitFirst(w: string, tail: string)
    requires w != [] && NoSpace(w) && (tail == [] || IsSpace(tail[0]))
    ensures Split(w + tail) == [w] + Split(tail)
  {
    var j := w + tail;
    assert StripLeft(j) == j by {
      assert j[0] == w[0];
    }
    TokenOf(w, tail);
    assert j[|w|..] == tail;
  }

  /** Splitting the joined tokens gives the tokens back. */
  lemma {:induction false} SplitJoin(ws: seq<string>)
    requires Tokens(ws)
    ensures Split(Join(ws)) == ws
  {
    if |ws| == 1 {
      SplitFirst(ws[0], []);
      assert ws[0] + [] == ws[0];
    } else if |ws| > 1 {
      var rest := Join(ws[1..]);
      assert Join(ws) == ws[0] + ([' '] + rest);
      SplitFirst(ws[0], [' '] + rest);
      SplitSkipsSpace(' ', rest);
      SplitJoin(ws[1..]);
      assert ws == [ws[0]] + ws[1..];
    }
  }

  /** `'*' * n`. */
  function Stars(n: nat): (r: string)
    ensures |r| == n && forall i :: 0 <= i < n ==> r[i] == '*'
  {
    seq(n, _ => '*')
  }

  /** One token of the message, masked when its lower-case form is banned. */
  function Masked(word: string, banned: set<string>): (r: string)
    ensures |r| == |word|
    ensures Lower(word) !in banned ==> r == word
    ensures Lower(word) in banned ==> forall i :: 0 <= i < |r| ==> r[i] == '*'
  {
    if Lower(word) in banned then Stars(|word|) else word
  }

  /** The message's tokens, each masked. */
  function Censored(words: seq<string>, banned: set<string>): (r: seq<string>)
    ensures |r| == |words|
  {
    seq(|words|, i requires 0 <= i < |words| => Masked(words[i], banned))
  }

  /**
   * The masking loop of `main`, which overwrites `words[i]` in place: a
   * token is replaced by asterisks of its own length exactly when its
   * lower-case form is banned, and is otherwise left as it is.
   */
  method CensorWords(words: seq<string>, banned: set<string>) returns (out: seq<string>)
    ensures |out| == |words|
    ensures forall i :: 0 <= i < |words| && Lower(words[i]) in banned ==> out[i] == Stars(|words[i]|)
    ensures forall i :: 0 <= i < |words| && Lower(words[i]) !in banned ==> out[i] == words[i]
    ensures out == Censored(words, banned)
  {
    out := words;
    for i := 0 to |out|
      invariant |out| == |words|
      invariant forall k :: 0 <= k < i ==> out[k] == Masked(words[k], banned)
      invariant forall k :: i <= k < |out| ==> out[k] == words[k]
    {
      if Lower(out[i]) in banned {
        out := out[i := Stars(|out[i]|)];
      }
    }
  }

  /** Masking keeps every token a token: non-empty, without whitespace, and of the same length. */
  lemma CensoredTokens(words: seq<string>, banned: set<string>)
    requires Tokens(words)
    ensures Tokens(Censored(words, banned))
    ensures forall i :: 0 <= i < |words| ==> |Censored(words, banned)[i]| == |words[i]|
  {
    forall i | 0 <= i < |words|
      ensures Censored(words, banned)[i] != [] && NoSpace(Censored(words, banned)[i])
    {
      if Lower(words[i]) in banned {
        assert Censored(words, banned)[i][0] == '*';
      }
    }
  }

  /**
   * The printed message holds the same number of tokens as the input, each
   * the input token masked or left alone: splitting the output gives
   * exactly the censored tokens.
   */
  lemma CensoredMessage(message: string, banned: set<string>)
    ensures Split(Join(Censored(Split(message), banned))) == Censored(Split(message), banned)
    ensures |Split(Join(Censored(Split(message), banned)))| == |Split(message)|
  {
    CensoredTokens(Split(message), banned);
    SplitJoin(Censored(Split(message), banned));
  }

  /**
   * Censoring an already censored message changes nothing when the banned
   * words are stored lower-cased: a masked token is either still unbanned
   * or all asterisks, which mask to themselves.
   */
  lemma CensorIdempotent(words: seq<string>, banned: set<string>)
    ensures Censored(Censored(words, banned), banned) == Censored(words, banned)
  {
    var once := Censored(words, banned);
    forall i | 0 <= i < |words|
      ensures Masked(once[i], banned) == once[i]
    {
      if Lower(words[i]) in banned {
        var s := Stars(|words[i]|);
        assert Lower(s) == s;
      }
    }
  }

  /** Matching ignores case but not punctuation: "Darn" is masked and "darn!" is not. */
  lemma WholeTokensOnly()
    ensures Censored(["Darn", "darn!"], {"darn"}) == ["****", "darn!"]
  {
    var words := ["Darn", "darn!"];
    assert Lower("Darn") == "darn";
    assert Lower("darn!") == "darn!";
    assert Masked(words[0], {"darn"}) == "****";
    assert Masked(words[1], {"darn"}) == "darn!";
  }

  /** The outcome of one run: an exit code, or the line printed. */
  datatype Run = Failed(code: int) | Done(output: string)

  /**
   * `main`: the argument count checked, the dictionary file's lines
   * (`None` when the file does not exist) loaded into the banned set, and
   * the message censored.
   */
  method Program(argc: int, dictionary: Option<seq<string>>, message: string) returns (run: Run)
    ensures argc != 2 || dictionary.None? ==> run == Failed(1)
    ensures argc == 2 && dictionary.Some? ==>
      run == Done(Join(Censored(Split(message), Banned(dictionary.value))))
  {
    if argc != 2 {
      return Failed(1);
    }
    if dictionary.None? {
      return Failed(1);
    }
    var banned := LoadBanned(dictionary.value);
    var words := Split(message);
    words := CensorWords(words, banned);
    return Done(Join(words));
  }
}
