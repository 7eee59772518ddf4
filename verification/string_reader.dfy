/** `StringReader` of src/StringReader.hpp: a command line cut at spaces
    into tokens, read one at a time, with a way to push a token back. */
module StringReaders {
  import opened Seqs

  const Space: char := ' '

  /** The tokens left, kept as the source keeps them: in reverse, so that
      the next token is the last element. */
  datatype Reader = Reader(words: seq<string>)

  /** The state of the constructor's loop after a prefix of the line: the
      completed words and the word being built. The loop's `space` flag is
      set exactly when the word being built is empty. */
  datatype Scan = Scan(words: seq<string>, tmp: string)

  /** The loop of the constructor over `s`: a space completes a non-empty
      word, any other character extends the current word. */
  function ScanLine(s: string): (r: Scan)
    decreases |s|
  {
    if s == [] then Scan([], [])
    else
      var p := ScanLine(s[..|s| - 1]);
      var c := s[|s| - 1];
      if c == Space then (if p.tmp != [] then Scan(p.words + [p.tmp], []) else p)
      else Scan(p.words, p.tmp + [c])
  }

  /** The words of the line, in order: the completed ones and the last one
      if the line does not end in a space. */
  function Tokens(s: string): seq<string> {
    var p := ScanLine(s);
    if p.tmp != [] then p.words + [p.tmp] else p.words
  }

  /** The tokens in the order `get` returns them. */
  function Remaining(r: Reader): seq<string> {
    Reverse(r.words)
  }

  /** `StringReader(s)`. */
  function New(s: string): (r: Reader)
    ensures |r.words| == |Tokens(s)|
  {
    Reader(Reverse(Tokens(s)))
  }

  /** `get()`: the next token, or `""` when none is left. */
  function Get(r: Reader): (res: (string, Reader))
    ensures r.words == [] ==> res == ("", r)
    ensures r.words != [] ==> res.1.words + [res.0] == r.words
  {
    if r.words == [] then ("", r)
    else (r.words[|r.words| - 1], Reader(r.words[..|r.words| - 1]))
  }

  /** `touch()`: the next token, without consuming it. */
  function Touch(r: Reader): (t: string)
    ensures t == Get(r).0
  {
    if r.words == [] then "" else r.words[|r.words| - 1]
  }

  /** `empty()`: no token is left to read. */
  predicate Empty(r: Reader): (b: bool)
    ensures b <==> Remaining(r) == []
  {
    r.words == []
  }

  /** `store(s)`: push a token back. */
  function Store(r: Reader, s: string): (r': Reader)
    ensures |r'.words| == |r.words| + 1
  {
    Reader(r.words + [s])
  }

  // ---------------------------------------------------------------------
  // Correctness
  // ---------------------------------------------------------------------

  /** A token is a non-empty word without spaces. */
  ghost predicate Word(w: string) {
    w != [] && Space !in w
  }

  ghost predicate Words(ws: seq<string>) {
    forall i :: 0 <= i < |ws| ==> Word(ws[i])
  }

  /** The words joined with single spaces. */
  function Unwords(ws: seq<string>): string {
    if ws == [] then [] else if |ws| == 1 then ws[0] else Unwords(ws[..|ws| - 1]) + [Space] + ws[|ws| - 1]
  }

  lemma {:induction false} ScanWords(s: string)
    ensures Words(ScanLine(s).words) && Space !in ScanLine(s).tmp
    decreases |s|
  {
    if s != [] {
      ScanWords(s[..|s| - 1]);
    }
  }

  /** Every token is a non-empty word without spaces. */
  lemma TokensAreWords(s: string)
    ensures Words(Tokens(s))
  {
    ScanWords(s);
  }

  /** After a space the scan has no word in progress, and scanning the rest
      of the line adds the rest's words. */
  lemma {:induction false} ScanAfter(x: string, y: string)
    requires ScanLine(x).tmp == []
    ensures ScanLine(x + y) == Scan(ScanLine(x).words + ScanLine(y).words, ScanLine(y).tmp)
    decreases |y|
  {
    if y == [] {
      assert x + y == x;
    } else {
      var v := y[..|y| - 1];
      ScanAfter(x, v);
      assert (x + y)[..|x + y| - 1] == x + v;
      assert (ScanLine(x).words + ScanLine(v).words) + [ScanLine(v).tmp]
          == ScanLine(x).words + (ScanLine(v).words + [ScanLine(v).tmp]);
    }
  }

  /** Tokens are separated by spaces: a line cut at a space has the tokens
      of its two parts, whatever runs of spaces surround them. */
  lemma TokensSplit(x: string, y: string)
    ensures Tokens(x + [Space] + y) == Tokens(x) + Tokens(y)
  {
    var xs := x + [Space];
    assert xs[..|xs| - 1] == x;
    ScanAfter(xs, y);
    assert xs + y == x + [Space] + y;
  }

  /** A word without spaces is one token; an empty string is none. */
  lemma {:induction false} TokensOfWord(w: string)
    requires Space !in w
    ensures ScanLine(w) == Scan([], w)
    ensures Tokens(w) == if w == [] then [] else [w]
    decreases |w|
  {
    if w != [] {
      TokensOfWord(w[..|w| - 1]);
      assert w[..|w| - 1] + [w[|w| - 1]] == w;
    }
  }

  /** Words joined with single spaces are cut back into the same words. */
  lemma {:induction false} TokensOfUnwords(ws: seq<string>)
    requires Words(ws)
    ensures Tokens(Unwords(ws)) == ws
    decreases |ws|
  {
    if |ws| == 1 {
      TokensOfWord(ws[0]);
    } else if |ws| > 1 {
      var p, w := ws[..|ws| - 1], ws[|ws| - 1];
      assert Words(p) by {
        forall i | 0 <= i < |p| ensures Word(p[i]) {
          assert p[i] == ws[i];
        }
      }
      TokensOfUnwords(p);
      assert Word(w);
      assert p + [w] == ws;
      TokensOfSnoc(p, w);
    }
  }

  /** One more word joined at the end adds one more token. */
  lemma TokensOfSnoc(p: seq<string>, w: string)
    requires |p| > 0 && Tokens(Unwords(p)) == p && Word(w)
    ensures Tokens(Unwords(p + [w])) == p + [w]
  {
    var ws := p + [w];
    assert ws[..|ws| - 1] == p && ws[|ws| - 1] == w;
    assert Unwords(ws) == Unwords(p) + [Space] + w;
    TokensSplit(Unwords(p), w);
    TokensOfWord(w);
  }

  /** A fresh reader hands out the tokens of the line, left to right. */
  lemma NewSpec(s: string)
    ensures Remaining(New(s)) == Tokens(s)
  {
    var t := Tokens(s);
    assert Remaining(New(s)) == t;
  }

  /** `get` consumes the first remaining token; on an exhausted reader it
      returns `""` and changes nothing. */
  lemma GetSpec(r: Reader)
    ensures Remaining(r) == [] ==> Get(r) == ("", r)
    ensures Remaining(r) != [] ==>
      Get(r).0 == Remaining(r)[0] && Remaining(Get(r).1) == Remaining(r)[1..]
  {
    if r.words != [] {
      var rest := Remaining(Get(r).1);
      assert rest == Remaining(r)[1..];
    }
  }

  /** `store(s)` makes `s` the next token and keeps the others in order;
      so `get` after `store(s)` returns `s` and the reader as it was. */
  lemma StoreSpec(r: Reader, s: string)
    ensures Remaining(Store(r, s)) == [s] + Remaining(r)
    ensures Get(Store(r, s)) == (s, r)
  {
    assert Remaining(Store(r, s)) == [s] + Remaining(r);
  }
}
