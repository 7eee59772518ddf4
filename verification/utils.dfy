/** The pure helpers of src/Utils.hpp: `FixedString<L>`, a NUL-padded
    character array compared with `strncmp` (section 7.24.4.4 of ISO C11),
    its keyword `split`, `shorten`, and the `fromString` lookup tables.

    Fixed strings hold bytes, written as characters below 256; the other
    strings of the program (`std::string`) are written as `string`. */
module Utils {
  import opened Wrappers
  import Order

  /** A byte of a C string; `strncmp` compares bytes as `unsigned char`,
      which is the order of `char` below 256. */
  type Byte = c: char | c as int < 256 witness 0 as char

  const NUL: Byte := 0 as char
  const FF: Byte := 255 as char
  const Bar: Byte := '|'

  /** The array `key` of a `FixedString<L>`. The program's keys are always
      `L` characters long; reading past a shorter key gives NUL, so that the
      comparison below is defined on every value. */
  datatype FStr = FStr(key: seq<Byte>)

  function At(k: seq<Byte>, i: int): Byte {
    if 0 <= i < |k| then k[i] else NUL
  }

  function Zeros(n: nat): (r: seq<Byte>)
    ensures |r| == n && forall i :: 0 <= i < n ==> r[i] == NUL
  {
    seq(n, _ => NUL)
  }

  /** What `s.c_str()` shows a C function: `s` up to its first NUL. */
  function CStr(s: seq<Byte>): (r: seq<Byte>)
    ensures |r| <= |s| && r == s[..|r|] && NUL !in r
    ensures |r| < |s| ==> s[|r|] == NUL
  {
    if s == [] || s[0] == NUL then [] else [s[0]] + CStr(s[1..])
  }

  /** The C string held from position `i` of a key on: the characters up
      to the first NUL or to the end of the array. */
  function TextFrom(k: seq<Byte>, L: int, i: nat): seq<Byte>
    decreases L - i
  {
    if i >= L || At(k, i) == NUL then [] else [At(k, i)] + TextFrom(k, L, i + 1)
  }

  function Text(x: FStr, L: int): seq<Byte> {
    TextFrom(x.key, L, 0)
  }

  /** A key as the constructor leaves it: its text, then NUL padding. */
  ghost predicate Canonical(x: FStr, L: nat) {
    |Text(x, L)| <= L && x.key == Text(x, L) + Zeros(L - |Text(x, L)|)
  }

  // ---------------------------------------------------------------------
  // Construction, length, emptiness
  // ---------------------------------------------------------------------

  /** `FixedString<L>(s)`: throws when `s` is longer than `L`; otherwise
      `strncpy` copies `s` up to its first NUL and pads with NUL. */
  function Make(s: seq<Byte>, L: nat): (r: Result<FStr>)
    ensures r.Ok? <==> |s| <= L
    ensures r.Ok? ==> |r.value.key| == L
  {
    if |s| > L then Err("String too long, this should never happen!")
    else Ok(FStr(CStr(s) + Zeros(L - |CStr(s)|)))
  }

  /** `len()`, that is `strnlen(key, L)`. */
  function Len(x: FStr, L: nat): (n: nat)
    ensures n <= L
    ensures forall j :: 0 <= j < n ==> At(x.key, j) != NUL
    ensures n < L ==> At(x.key, n) == NUL
  {
    LenFrom(x.key, L, 0)
  }

  function LenFrom(k: seq<Byte>, L: nat, i: nat): (n: nat)
    requires i <= L && forall j :: 0 <= j < i ==> At(k, j) != NUL
    ensures i <= n <= L
    ensures forall j :: 0 <= j < n ==> At(k, j) != NUL
    ensures n < L ==> At(k, n) == NUL
    decreases L - i
  {
    if i == L || At(k, i) == NUL then i else LenFrom(k, L, i + 1)
  }

  /** `empty()`: the first byte is NUL. */
  predicate Empty(x: FStr) {
    At(x.key, 0) == NUL
  }

  /** `min()`: all zero bytes. */
  function Min(L: nat): (x: FStr)
    ensures |x.key| == L
  {
    FStr(Zeros(L))
  }

  /** `max()`: all 0xFF bytes. */
  function Max(L: nat): (x: FStr)
    ensures |x.key| == L
  {
    FStr(seq(L, _ => FF))
  }

  lemma {:induction false} TextFromBound(k: seq<Byte>, L: int, i: nat)
    ensures |TextFrom(k, L, i)| <= if L > i then L - i else 0
    ensures forall j :: 0 <= j < |TextFrom(k, L, i)| ==> TextFrom(k, L, i)[j] == At(k, i + j) != NUL
    ensures i + |TextFrom(k, L, i)| < L ==> At(k, i + |TextFrom(k, L, i)|) == NUL
    decreases L - i
  {
    if i < L && At(k, i) != NUL {
      TextFromBound(k, L, i + 1);
      var r := TextFrom(k, L, i + 1);
      assert TextFrom(k, L, i) == [At(k, i)] + r;
      forall j | 0 <= j < |TextFrom(k, L, i)| ensures TextFrom(k, L, i)[j] == At(k, i + j) != NUL {
        if j > 0 {
          assert TextFrom(k, L, i)[j] == r[j - 1];
        }
      }
    }
  }

  /** `len()` is the length of the C string, and `empty()` holds exactly
      when that string is empty. */
  lemma LenSpec(x: FStr, L: nat)
    ensures Len(x, L) == |Text(x, L)|
    ensures L > 0 ==> (Empty(x) <==> Len(x, L) == 0)
  {
    TextFromBound(x.key, L, 0);
    var t := Text(x, L);
    var n := Len(x, L);
    assert |t| < n ==> At(x.key, |t|) != NUL;
    forall j | 0 <= j < |t|
      ensures At(x.key, j) != NUL
    {
      assert t[j] == At(x.key, 0 + j);
    }
  }

  lemma {:induction false} TextOfPadded(w: seq<Byte>, n: nat, i: nat)
    requires NUL !in w && i <= |w|
    ensures TextFrom(w + Zeros(n), |w| + n, i) == w[i..]
    decreases |w| - i
  {
    var k := w + Zeros(n);
    if i < |w| {
      assert At(k, i) == w[i];
      TextOfPadded(w, n, i + 1);
      assert w[i..] == [w[i]] + w[i + 1..];
    } else if n > 0 {
      assert At(k, i) == NUL;
    }
  }

  /** The constructor stores the C string of `s`, NUL padded; so a string
      without NUL of at most `L` characters is read back unchanged. */
  lemma MakeSpec(s: seq<Byte>, L: nat)
    requires |s| <= L
    ensures Text(Make(s, L).value, L) == CStr(s)
    ensures Canonical(Make(s, L).value, L)
    ensures NUL !in s ==> Text(Make(s, L).value, L) == s
  {
    var w := CStr(s);
    TextOfPadded(w, L - |w|, 0);
    assert w[0..] == w;
    if NUL !in s {
      CStrWhole(s);
    }
  }

  lemma CStrWhole(s: seq<Byte>)
    requires NUL !in s
    ensures CStr(s) == s
  {
  }

  // ---------------------------------------------------------------------
  // Comparison
  // ---------------------------------------------------------------------

  /** `strncmp(a, b, L)` from position `i`: the sign of the first
      difference, stopping at a NUL common to both or after `L` bytes. */
  function Cmp(a: seq<Byte>, b: seq<Byte>, L: int, i: nat): (r: int)
    ensures -1 <= r <= 1
    decreases L - i
  {
    if i >= L then 0
    else if At(a, i) != At(b, i) then (if At(a, i) < At(b, i) then -1 else 1)
    else if At(a, i) == NUL then 0
    else Cmp(a, b, L, i + 1)
  }

  /** `operator<=>` answering `less`. */
  function Lt(L: nat): (FStr, FStr) -> bool {
    (a: FStr, b: FStr) => Cmp(a.key, b.key, L, 0) < 0
  }

  /** `operator==`. */
  predicate Eq(a: FStr, b: FStr, L: nat) {
    Cmp(a.key, b.key, L, 0) == 0
  }

  /** Lexicographic order of character strings, a proper prefix first. */
  predicate LexLess(x: seq<Byte>, y: seq<Byte>) {
    if y == [] then false
    else if x == [] then true
    else if x[0] != y[0] then x[0] < y[0]
    else LexLess(x[1..], y[1..])
  }

  lemma {:induction false} CmpAntisym(a: seq<Byte>, b: seq<Byte>, L: int, i: nat)
    ensures Cmp(a, b, L, i) == -Cmp(b, a, L, i)
    decreases L - i
  {
    if i < L && At(a, i) == At(b, i) && At(a, i) != NUL {
      CmpAntisym(a, b, L, i + 1);
    }
  }

  lemma {:induction false} CmpTrans(a: seq<Byte>, b: seq<Byte>, c: seq<Byte>, L: int, i: nat)
    requires Cmp(a, b, L, i) <= 0 && Cmp(b, c, L, i) <= 0
    ensures Cmp(a, c, L, i) <= 0
    ensures Cmp(a, c, L, i) == 0 ==> Cmp(a, b, L, i) == 0 && Cmp(b, c, L, i) == 0
    decreases L - i
  {
    if i < L && At(a, i) == At(b, i) == At(c, i) && At(a, i) != NUL {
      CmpTrans(a, b, c, L, i + 1);
    }
  }

  /** `strncmp` order is a strict weak order on fixed strings, so they can
      key the sorted containers. */
  lemma LtIsWeakOrder(L: nat)
    ensures Order.WeakOrder(Lt(L))
  {
    var lt := Lt(L);
    forall a: FStr
      ensures !lt(a, a)
    {
      CmpAntisym(a.key, a.key, L, 0);
    }
    forall a: FStr, b: FStr, c: FStr | lt(a, b) && lt(b, c)
      ensures lt(a, c)
    {
      CmpTrans(a.key, b.key, c.key, L, 0);
    }
    forall a: FStr, b: FStr, c: FStr | !lt(a, b) && !lt(b, c)
      ensures !lt(a, c)
    {
      CmpAntisym(a.key, b.key, L, 0);
      CmpAntisym(b.key, c.key, L, 0);
      CmpAntisym(a.key, c.key, L, 0);
      CmpTrans(c.key, b.key, a.key, L, 0);
    }
  }

  /** `operator==` is the equivalence of `operator<=>`, and the order is
      total: exactly one of less, equal, greater holds. */
  lemma EqIsEquiv(a: FStr, b: FStr, L: nat)
    ensures Eq(a, b, L) <==> Order.Equiv(Lt(L), a, b)
    ensures Lt(L)(a, b) || Eq(a, b, L) || Lt(L)(b, a)
  {
    CmpAntisym(a.key, b.key, L, 0);
  }

  /** Two fixed strings compare equal exactly when their C strings are the
      same. */
  lemma {:induction false} CmpZeroIsText(a: seq<Byte>, b: seq<Byte>, L: int, i: nat)
    ensures Cmp(a, b, L, i) == 0 <==> TextFrom(a, L, i) == TextFrom(b, L, i)
    decreases L - i
  {
    if i < L && At(a, i) != At(b, i) {
      if At(a, i) != NUL && At(b, i) != NUL {
        assert TextFrom(a, L, i)[0] != TextFrom(b, L, i)[0];
      }
    } else if i < L && At(a, i) != NUL {
      CmpZeroIsText(a, b, L, i + 1);
      var x := At(a, i);
      assert TextFrom(a, L, i) == [x] + TextFrom(a, L, i + 1);
      assert TextFrom(b, L, i) == [x] + TextFrom(b, L, i + 1);
      if TextFrom(a, L, i) == TextFrom(b, L, i) {
        assert TextFrom(a, L, i)[1..] == TextFrom(a, L, i + 1);
      }
    }
  }

  /** `strncmp` answers "less" exactly when the C string of the first key
      precedes that of the second in lexicographic order. */
  lemma {:induction false} CmpIsLex(a: seq<Byte>, b: seq<Byte>, L: int, i: nat)
    ensures Cmp(a, b, L, i) < 0 <==> LexLess(TextFrom(a, L, i), TextFrom(b, L, i))
    decreases L - i
  {
    if i < L && At(a, i) != At(b, i) {
      assert NUL as int == 0;
    } else if i < L && At(a, i) != NUL {
      CmpIsLex(a, b, L, i + 1);
      var x := At(a, i);
      var ta, tb := TextFrom(a, L, i + 1), TextFrom(b, L, i + 1);
      assert TextFrom(a, L, i) == [x] + ta;
      assert TextFrom(b, L, i) == [x] + tb;
      assert ([x] + ta)[1..] == ta && ([x] + tb)[1..] == tb;
    }
  }

  /** For keys built by the constructor, `operator==` is plain equality of
      the arrays; so sets and multisets of such keys may use either. */
  lemma CanonicalEq(a: FStr, b: FStr, L: nat)
    requires Canonical(a, L) && Canonical(b, L)
    ensures Eq(a, b, L) <==> a == b
  {
    CmpZeroIsText(a.key, b.key, L, 0);
    TextFromBound(a.key, L, 0);
    TextFromBound(b.key, L, 0);
  }

  lemma {:induction false} MaxTop(m: seq<Byte>, x: seq<Byte>, L: int, i: nat)
    requires forall j :: 0 <= j < L ==> At(m, j) == FF
    ensures Cmp(m, x, L, i) >= 0
    decreases L - i
  {
    if i < L && At(x, i) == FF {
      MaxTop(m, x, L, i + 1);
    }
  }

  /** Nothing is above `max()`. */
  lemma MaxBounds(x: FStr, L: nat)
    ensures !Lt(L)(Max(L), x)
  {
    MaxTop(Max(L).key, x.key, L, 0);
  }

  /** `min()` compares equal to exactly the empty strings and nothing is
      below it. */
  lemma MinSpec(x: FStr, L: nat)
    requires L > 0
    ensures Eq(Min(L), x, L) <==> Empty(x)
    ensures !Lt(L)(x, Min(L))
  {
    assert At(Min(L).key, 0) == NUL;
    assert NUL as int == 0;
  }

  /** No fixed string built from characters below 0xFF, such as printable
      ASCII, reaches `max()`. */
  lemma MaxSpec(s: seq<Byte>, L: nat)
    requires 0 < L && |s| <= L
    requires forall c :: c in s ==> c < FF
    ensures Lt(L)(Make(s, L).value, Max(L))
  {
    var k := Make(s, L).value.key;
    var w := CStr(s);
    assert NUL as int == 0;
    if |w| > 0 {
      assert k[0] == s[0] && s[0] in s;
    } else {
      assert k[0] == NUL;
    }
  }

  // ---------------------------------------------------------------------
  // split
  // ---------------------------------------------------------------------

  /** The `|`-separated segments of `t`, built as the scan of `split`
      builds them: a `|` closes the current segment, any other character
      extends it. */
  function Segs(t: seq<Byte>): (r: seq<seq<Byte>>)
    ensures |r| > 0
    decreases |t|
  {
    if t == [] then [[]]
    else
      var p := Segs(t[..|t| - 1]);
      var c := t[|t| - 1];
      if c == Bar then p + [[]] else p[..|p| - 1] + [p[|p| - 1] + [c]]
  }

  /** The segments joined back with `|`. */
  function Join(ss: seq<seq<Byte>>): seq<Byte>
    requires |ss| > 0
  {
    if |ss| == 1 then ss[0] else Join(ss[..|ss| - 1]) + [Bar] + ss[|ss| - 1]
  }

  predicate BarFree(ss: seq<seq<Byte>>) {
    forall i :: 0 <= i < |ss| ==> Bar !in ss[i]
  }

  /** Joining the segments gives back the text, and no segment holds `|`. */
  lemma {:induction false} SegsJoin(t: seq<Byte>)
    ensures Join(Segs(t)) == t
    ensures BarFree(Segs(t))
    decreases |t|
  {
    if t != [] {
      var u := t[..|t| - 1];
      SegsJoin(u);
      var p := Segs(u);
      var c := t[|t| - 1];
      assert t == u + [c];
      if c == Bar {
        assert (p + [[]])[..|p|] == p;
      } else if |p| > 1 {
        var q := p[..|p| - 1] + [p[|p| - 1] + [c]];
        assert q[..|q| - 1] == p[..|p| - 1];
        assert Join(p) == Join(p[..|p| - 1]) + [Bar] + p[|p| - 1];
      }
    }
  }

  lemma {:induction false} SegsAppend(x: seq<Byte>, w: seq<Byte>)
    requires Bar !in w
    ensures Segs(x + [Bar] + w) == Segs(x) + [w]
    decreases |w|
  {
    if w == [] {
      assert x + [Bar] + w == x + [Bar];
      assert (x + [Bar])[..|x|] == x;
    } else {
      var v := w[..|w| - 1];
      var c := w[|w| - 1];
      SegsAppend(x, v);
      assert c in w && v + [c] == w;
      assert (x + [Bar] + w)[..|x + [Bar] + w| - 1] == x + [Bar] + v;
      assert (Segs(x) + [v])[..|Segs(x)|] == Segs(x);
    }
  }

  /** Splitting `|`-free segments joined with `|` gives them back. */
  lemma {:induction false} JoinSegs(ss: seq<seq<Byte>>)
    requires |ss| > 0 && BarFree(ss)
    ensures Segs(Join(ss)) == ss
    decreases |ss|
  {
    if |ss| == 1 {
      SingleSeg(ss[0]);
    } else {
      var p := ss[..|ss| - 1];
      JoinSegs(p);
      SegsAppend(Join(p), ss[|ss| - 1]);
    }
  }

  lemma {:induction false} SingleSeg(w: seq<Byte>)
    requires Bar !in w
    ensures Segs(w) == [w]
    decreases |w|
  {
    if w != [] {
      SingleSeg(w[..|w| - 1]);
      assert w[..|w| - 1] + [w[|w| - 1]] == w;
    }
  }

  /** The checks `split` makes on the completed segments, in order: an
      empty one throws "Empty keyword!", one already collected throws
      "Duplicate keyword!". */
  function Collect(segs: seq<seq<Byte>>): (r: Result<set<seq<Byte>>>)
    ensures r.Err? ==> r.msg == "Empty keyword!" || r.msg == "Duplicate keyword!"
    decreases |segs|
  {
    if segs == [] then Ok({})
    else
      match Collect(segs[..|segs| - 1])
      case Err(e) => Err(e)
      case Ok(got) =>
        var w := segs[|segs| - 1];
        if w == [] then Err("Empty keyword!")
        else if w in got then Err("Duplicate keyword!")
        else Ok(got + {w})
  }

  /** Every segment non-empty, no two alike. */
  ghost predicate Keywords(segs: seq<seq<Byte>>) {
    && (forall i :: 0 <= i < |segs| ==> segs[i] != [])
    && (forall i, j :: 0 <= i < j < |segs| ==> segs[i] != segs[j])
  }

  /** `split` succeeds exactly on non-empty, pairwise different segments
      and then returns all of them; when it fails, the message names the
      fault of the first segment that is empty or repeats an earlier one. */
  lemma {:induction false} CollectSpec(segs: seq<seq<Byte>>)
    ensures Collect(segs).Ok? <==> Keywords(segs)
    ensures Collect(segs).Ok? ==> Collect(segs).value == set i | 0 <= i < |segs| :: segs[i]
    ensures Collect(segs).Err? ==>
      (Collect(segs).msg == "Empty keyword!" <==>
        exists i :: 0 <= i < |segs| && segs[i] == [] && Keywords(segs[..i]))
    decreases |segs|
  {
    if segs != [] {
      var n := |segs| - 1;
      var p := segs[..n];
      var w := segs[n];
      CollectSpec(p);
      assert forall i :: 0 <= i < n ==> segs[i] == p[i];
      if Collect(p).Ok? {
        var got := Collect(p).value;
        assert w in got <==> exists i :: 0 <= i < n && p[i] == w;
        if Collect(segs).Ok? {
          assert Keywords(segs);
          assert (set i | 0 <= i < |segs| :: segs[i]) == got + {w};
        }
        if Collect(segs).Err? && Collect(segs).msg == "Empty keyword!" {
          assert segs[..n] == p;
        }
      } else if Collect(p).msg == "Empty keyword!" {
        var i :| 0 <= i < n && p[i] == [] && Keywords(p[..i]);
        assert segs[..i] == p[..i];
      } else {
        assert forall i :: 0 <= i <= n ==> segs[..i] == p[..i];
      }
    }
  }

  /** `split()`: the set of keywords of a `|`-separated list, as their
      texts; an empty string has none. */
  function Split(x: FStr, L: nat): (r: Result<set<seq<Byte>>>)
    ensures Empty(x) ==> r == Ok({})
  {
    if Empty(x) then Ok({}) else Collect(Segs(Text(x, L)))
  }

  /** A list of distinct, non-empty, `|`-free keywords stored in a fixed
      string splits back into exactly those keywords. */
  lemma SplitJoin(ws: seq<seq<Byte>>, L: nat)
    requires |ws| > 0 && Keywords(ws) && BarFree(ws)
    requires NUL !in Join(ws) && |Join(ws)| <= L
    ensures Split(Make(Join(ws), L).value, L) == Ok(set i | 0 <= i < |ws| :: ws[i])
  {
    var x := Make(Join(ws), L).value;
    MakeSpec(Join(ws), L);
    JoinSegs(ws);
    CollectSpec(ws);
    LenSpec(x, L);
    JoinPrefix(ws);
  }

  lemma {:induction false} JoinPrefix(ws: seq<seq<Byte>>)
    requires |ws| > 0
    ensures |Join(ws)| >= |ws[0]| && Join(ws)[..|ws[0]|] == ws[0]
    decreases |ws|
  {
    if |ws| > 1 {
      JoinPrefix(ws[..|ws| - 1]);
    }
  }

  // ---------------------------------------------------------------------
  // shorten
  // ---------------------------------------------------------------------

  /** `shorten(s, maxLen)`. The length test compares with `size_t`, so a
      negative `maxLen` keeps `s`; a `maxLen` below 3 makes the count
      `maxLen - 3` wrap to a huge `size_t`, so `substr` keeps all of `s`
      before the dots are appended. */
  function Shorten(s: string, maxLen: int): (r: string)
    ensures r == s <==> maxLen < 0 || |s| <= maxLen
    ensures r != s ==> 3 <= |r| <= |s| + 3 && r[|r| - 3..] == "..." && r[..|r| - 3] == s[..|r| - 3]
    ensures maxLen >= 3 ==> |r| <= maxLen || r == s
    ensures maxLen >= 3 && |s| > maxLen ==> |r| == maxLen
  {
    if maxLen < 0 || |s| <= maxLen then s
    else if maxLen < 3 then s + "..."
    else s[..maxLen - 3] + "..."
  }

  // ---------------------------------------------------------------------
  // fromString
  // ---------------------------------------------------------------------

  datatype Privilege = Guest | Customer | Clerk | Admin

  /** The enumerator values. */
  function Level(p: Privilege): int {
    match p
    case Guest => 0
    case Customer => 1
    case Clerk => 3
    case Admin => 7
  }

  /** The key of `p` in `privilegeMap`. */
  function Digit(p: Privilege): string {
    match p
    case Guest => "0"
    case Customer => "1"
    case Clerk => "3"
    case Admin => "7"
  }

  /** `fromString<Privilege>`. */
  function ParsePrivilege(s: string): (r: Result<Privilege>)
    ensures r.Ok? <==> s in {"0", "1", "3", "7"}
  {
    if s == "7" then Ok(Admin)
    else if s == "3" then Ok(Clerk)
    else if s == "1" then Ok(Customer)
    else if s == "0" then Ok(Guest)
    else Err("Invalid privilege!")
  }

  /** The table is a bijection: a string parses to `p` exactly when it is
      `p`'s digit, and that digit spells `p`'s numeric value. */
  lemma PrivilegeRoundTrip(s: string, p: Privilege)
    ensures ParsePrivilege(s) == Ok(p) <==> s == Digit(p)
    ensures Level(p) == Digit(p)[0] as int - '0' as int
  {
  }

  datatype BookField = Isbn | Name | Author | Keyword | Price

  /** The key of a field in `bookDataMap`. */
  function FieldName(f: BookField): string {
    match f
    case Isbn => "ISBN"
    case Name => "name"
    case Author => "author"
    case Keyword => "keyword"
    case Price => "price"
  }

  /** `fromString<BookDataID>`. */
  function ParseField(s: string): (r: Result<BookField>)
    ensures r.Ok? <==> s in {"ISBN", "name", "author", "keyword", "price"}
  {
    if s == "ISBN" then Ok(Isbn)
    else if s == "name" then Ok(Name)
    else if s == "author" then Ok(Author)
    else if s == "keyword" then Ok(Keyword)
    else if s == "price" then Ok(Price)
    else Err("Invalid type!")
  }

  lemma FieldRoundTrip(s: string, f: BookField)
    ensures ParseField(s) == Ok(f) <==> s == FieldName(f)
  {
  }

  /** `fromString<String20>`, `<String30>` and `<String60>`, with `L` the
      width: an empty string is refused before the constructor runs. */
  function ParseFixed(s: seq<Byte>, L: nat): (r: Result<FStr>)
    ensures r.Ok? <==> 0 < |s| <= L
    ensures r.Err? && s == [] ==> r.msg == "Empty String!"
  {
    if s == [] then Err("Empty String!") else Make(s, L)
  }

  /** A parsed fixed string holds the input, and is never empty when the
      input has no NUL. */
  lemma ParseFixedSpec(s: seq<Byte>, L: nat)
    requires ParseFixed(s, L).Ok? && NUL !in s
    ensures Text(ParseFixed(s, L).value, L) == s
    ensures !Empty(ParseFixed(s, L).value)
  {
    MakeSpec(s, L);
    LenSpec(ParseFixed(s, L).value, L);
  }
}
