/** Textual keys: decimal numbers, joined lists and sorted lists, and when they identify their parts. */
module Keys {

  predicate IsDigit(c: char) { '0' <= c <= '9' }

  function Digit(n: nat): (c: char)
    requires n < 10
    ensures IsDigit(c)
  {
    '0' + (n as char)
  }

  /** Decimal rendering of a non-negative number. */
  function Itoa(n: nat): (s: string)
    ensures s != [] && forall c :: c in s ==> IsDigit(c)
  {
    if n < 10 then [Digit(n)] else Itoa(n / 10) + [Digit(n % 10)]
  }

  lemma {:induction false} ItoaInjective(m: nat, n: nat)
    requires Itoa(m) == Itoa(n)
    ensures m == n
  {
    var s, t := Itoa(m), Itoa(n);
    if m >= 10 && n >= 10 {
      assert s[..|s| - 1] == Itoa(m / 10) && t[..|t| - 1] == Itoa(n / 10);
      assert s[|s| - 1] == Digit(m % 10) && t[|t| - 1] == Digit(n % 10);
      ItoaInjective(m / 10, n / 10);
    } else {
      assert s[0] == t[0];
    }
  }

  function Join(parts: seq<string>, sep: char): string {
    if parts == [] then []
    else if |parts| == 1 then parts[0]
    else parts[0] + [sep] + Join(parts[1..], sep)
  }

  predicate Separable(parts: seq<string>, sep: char) {
    forall i :: 0 <= i < |parts| ==> sep !in parts[i]
  }

  lemma FirstSeparator(a: string, x: string, sep: char)
    requires sep !in a
    ensures (a + [sep] + x)[|a|] == sep && forall i :: 0 <= i < |a| ==> (a + [sep] + x)[i] != sep
  {
  }

  /** Two texts without the separator that are followed by one are equal when the whole texts are. */
  lemma SplitAtSeparator(a: string, b: string, x: string, y: string, sep: char)
    requires sep !in a && sep !in b && a + [sep] + x == b + [sep] + y
    ensures a == b && x == y
  {
    var s, t := a + [sep] + x, b + [sep] + y;
    FirstSeparator(a, x, sep);
    FirstSeparator(b, y, sep);
    assert |a| == |b|;
    assert a == s[..|a|] && b == t[..|b|];
    assert x == s[|a| + 1..] && y == t[|b| + 1..];
  }

  /** Joining is injective on non-empty lists whose parts do not contain the separator. */
  lemma {:induction false} JoinInjective(a: seq<string>, b: seq<string>, sep: char)
    requires a != [] && b != [] && Separable(a, sep) && Separable(b, sep)
    requires Join(a, sep) == Join(b, sep)
    ensures a == b
  {
    if |a| == 1 && |b| > 1 {
      FirstSeparator(b[0], Join(b[1..], sep), sep);
    } else if |a| > 1 && |b| == 1 {
      FirstSeparator(a[0], Join(a[1..], sep), sep);
    } else if |a| > 1 {
      SplitAtSeparator(a[0], b[0], Join(a[1..], sep), Join(b[1..], sep), sep);
      JoinInjective(a[1..], b[1..], sep);
      assert a == [a[0]] + a[1..] && b == [b[0]] + b[1..];
    }
  }

  // ---------------------------------------------------------------- sorting texts

  predicate LexLeq(a: string, b: string) {
    a == [] || (b != [] && (a[0] < b[0] || (a[0] == b[0] && LexLeq(a[1..], b[1..]))))
  }

  /** The order of texts: by the first differing character, a beginning before what continues it. */
  lemma {:induction false} LexLeqMeans(a: string, b: string)
    ensures LexLeq(a, b) <==>
            exists k: nat :: k <= |a| && k <= |b| && a[..k] == b[..k] && (k == |a| || (k < |b| && a[k] < b[k]))
  {
    if a == [] {
      assert a[..0] == b[..0];
    } else if b != [] && a[0] == b[0] {
      LexLeqMeans(a[1..], b[1..]);
      if k: nat :| k < |a| && k < |b| && a[1..][..k] == b[1..][..k] &&
                   (k == |a| - 1 || (k < |b| - 1 && a[1..][k] < b[1..][k])) {
        assert a[..k + 1] == [a[0]] + a[1..][..k] && b[..k + 1] == [b[0]] + b[1..][..k];
      }
      if k: nat :| k <= |a| && k <= |b| && a[..k] == b[..k] && (k == |a| || (k < |b| && a[k] < b[k])) {
        assert k > 0;
        assert a[1..][..k - 1] == a[..k][1..] && b[1..][..k - 1] == b[..k][1..];
      }
    } else {
      assert a[..0] == b[..0];
      assert b != [] ==> forall k :: 0 < k <= |a| && k <= |b| ==> a[..k][0] != b[..k][0];
    }
  }

  /** The number that digits stand for. */
  function ValueOf(s: string): int {
    if s == [] then 0 else 10 * ValueOf(s[..|s| - 1]) + (s[|s| - 1] as int - '0' as int)
  }

  lemma {:induction false} ItoaIsDecimal(n: nat)
    ensures ValueOf(Itoa(n)) == n && (n > 0 ==> Itoa(n)[0] != '0')
  {
    if n >= 10 {
      ItoaIsDecimal(n / 10);
      var s := Itoa(n);
      assert s[..|s| - 1] == Itoa(n / 10) && s[|s| - 1] == Digit(n % 10);
    }
  }

  lemma {:induction false} LexAntisymmetric(a: string, b: string)
    requires LexLeq(a, b) && LexLeq(b, a)
    ensures a == b
  {
    if a != [] {
      LexAntisymmetric(a[1..], b[1..]);
      assert a == [a[0]] + a[1..] && b == [b[0]] + b[1..];
    }
  }

  lemma {:induction false} LexTotal(a: string, b: string)
    ensures LexLeq(a, b) || LexLeq(b, a)
  {
    if a != [] && b != [] && a[0] == b[0] {
      LexTotal(a[1..], b[1..]);
    }
  }

  lemma {:induction false} LexTransitive(a: string, b: string, c: string)
    requires LexLeq(a, b) && LexLeq(b, c)
    ensures LexLeq(a, c)
  {
    if a != [] && a[0] == b[0] == c[0] {
      LexTransitive(a[1..], b[1..], c[1..]);
    }
  }

  predicate Sorted(s: seq<string>) {
    forall i, j :: 0 <= i < j < |s| ==> LexLeq(s[i], s[j])
  }

  function Insert(x: string, s: seq<string>): seq<string> {
    if s == [] || LexLeq(x, s[0]) then [x] + s else [s[0]] + Insert(x, s[1..])
  }

  function Sort(s: seq<string>): seq<string> {
    if s == [] then [] else Insert(s[0], Sort(s[1..]))
  }

  lemma {:induction false} InsertSorts(x: string, s: seq<string>)
    requires Sorted(s)
    ensures Sorted(Insert(x, s)) && multiset(Insert(x, s)) == multiset(s) + multiset{x}
  {
    hide LexLeq;
    if s != [] {
      assert s == [s[0]] + s[1..];
      if LexLeq(x, s[0]) {
        forall j | 0 <= j < |s|
          ensures LexLeq(x, s[j])
        {
          if j > 0 {
            LexTransitive(x, s[0], s[j]);
          }
        }
      } else {
        LexTotal(x, s[0]);
        InsertSorts(x, s[1..]);
        var rest := Insert(x, s[1..]);
        forall j | 0 <= j < |rest|
          ensures LexLeq(s[0], rest[j])
        {
          assert rest[j] in multiset(rest);
          assert rest[j] == x || rest[j] in s[1..];
        }
      }
    }
  }

  lemma {:induction false} SortSorts(s: seq<string>)
    ensures Sorted(Sort(s)) && multiset(Sort(s)) == multiset(s) && |Sort(s)| == |s|
  {
    if s != [] {
      SortSorts(s[1..]);
      InsertSorts(s[0], Sort(s[1..]));
      assert s == [s[0]] + s[1..];
      assert |multiset(Sort(s))| == |Sort(s)|;
    }
  }

  lemma LeastFirst(a: seq<string>, x: string)
    requires Sorted(a) && x in a
    ensures LexLeq(a[0], x) && Sorted(a[1..])
  {
    var i :| 0 <= i < |a| && a[i] == x;
    if i == 0 {
      LexTotal(x, x);
    }
  }

  lemma SameLength(a: seq<string>, b: seq<string>)
    requires multiset(a) == multiset(b)
    ensures |a| == |b|
  {
    assert |multiset(a)| == |a| && |multiset(b)| == |b|;
  }

  /** Two sorted lists with the same elements are equal. */
  lemma {:induction false} SortedUnique(a: seq<string>, b: seq<string>)
    requires Sorted(a) && Sorted(b) && multiset(a) == multiset(b)
    ensures a == b
  {
    hide LexLeq, Sorted;
    SameLength(a, b);
    if a != [] {
      assert a == [a[0]] + a[1..] && b == [b[0]] + b[1..];
      assert a[0] in multiset(b) && b[0] in multiset(a);
      LeastFirst(b, a[0]);
      LeastFirst(a, b[0]);
      LexAntisymmetric(a[0], b[0]);
      assert multiset(a[1..]) == multiset(a) - multiset{a[0]};
      assert multiset(b[1..]) == multiset(b) - multiset{b[0]};
      SortedUnique(a[1..], b[1..]);
    }
  }

  // ---------------------------------------------------------------- keys of number lists

  function Decimals(ids: seq<nat>): (r: seq<string>)
    ensures |r| == |ids| && forall i :: 0 <= i < |ids| ==> r[i] == Itoa(ids[i])
  {
    seq(|ids|, i requires 0 <= i < |ids| => Itoa(ids[i]))
  }

  /** The decimal renderings, sorted as texts and joined with underscores. */
  function NumbersKey(ids: seq<nat>): string {
    Join(Sort(Decimals(ids)), '_')
  }

  lemma {:induction false} DecimalsCount(ids: seq<nat>, x: nat)
    ensures multiset(Decimals(ids))[Itoa(x)] == multiset(ids)[x]
  {
    hide Itoa;
    if ids != [] {
      DecimalsCount(ids[1..], x);
      assert ids == [ids[0]] + ids[1..];
      assert Decimals(ids) == [Itoa(ids[0])] + Decimals(ids[1..]);
      if Itoa(ids[0]) == Itoa(x) {
        ItoaInjective(ids[0], x);
      }
    }
  }

  lemma {:induction false} DecimalsOnly(ids: seq<nat>, s: string)
    requires s in Decimals(ids)
    ensures exists x :: x in ids && s == Itoa(x)
  {
    var i :| 0 <= i < |ids| && Decimals(ids)[i] == s;
    assert ids[i] in ids;
  }

  /** The key identifies the multiset of numbers behind it. */
  lemma NumbersKeyIdentifies(a: seq<nat>, b: seq<nat>)
    requires a != [] && b != []
    ensures NumbersKey(a) == NumbersKey(b) <==> multiset(a) == multiset(b)
  {
    var p, q := Decimals(a), Decimals(b);
    SortSorts(p);
    SortSorts(q);
    if NumbersKey(a) == NumbersKey(b) {
      SortedPartsSeparable(a);
      SortedPartsSeparable(b);
      JoinInjective(Sort(p), Sort(q), '_');
      forall x: nat
        ensures multiset(a)[x] == multiset(b)[x]
      {
        DecimalsCount(a, x);
        DecimalsCount(b, x);
      }
    }
    if multiset(a) == multiset(b) {
      forall s: string
        ensures multiset(p)[s] == multiset(q)[s]
      {
        if s in p {
          DecimalsOnly(a, s);
          var x :| x in a && s == Itoa(x);
          DecimalsCount(a, x);
          DecimalsCount(b, x);
        } else if s in q {
          DecimalsOnly(b, s);
          var x :| x in b && s == Itoa(x);
          DecimalsCount(a, x);
          DecimalsCount(b, x);
        }
      }
      SortedUnique(Sort(p), Sort(q));
    }
  }

  lemma SortedPartsSeparable(ids: seq<nat>)
    ensures Separable(Sort(Decimals(ids)), '_')
  {
    var parts := Decimals(ids);
    SortSorts(parts);
    forall i | 0 <= i < |Sort(parts)|
      ensures '_' !in Sort(parts)[i]
    {
      assert Sort(parts)[i] in multiset(parts);
      DecimalsOnly(ids, Sort(parts)[i]);
    }
  }

  // ---------------------------------------------------------------- cache keys

  /** Key of a table oid and a column list: the oid, a colon, and the columns joined with commas. */
  function CacheKey(oid: nat, cols: seq<string>): string {
    Itoa(oid) + [':'] + Join(cols, ',')
  }

  /** The text cut at each separator. */
  function Cut(text: string, sep: char): (parts: seq<string>)
    ensures parts != []
  {
    if text == [] then [[]]
    else var rest := Cut(text[1..], sep);
      if text[0] == sep then [[]] + rest else [[text[0]] + rest[0]] + rest[1..]
  }

  lemma {:induction false} JoinCut(text: string, sep: char)
    ensures Join(Cut(text, sep), sep) == text && Separable(Cut(text, sep), sep)
  {
    if text != [] {
      JoinCut(text[1..], sep);
      var rest, parts := Cut(text[1..], sep), Cut(text, sep);
      if text[0] == sep {
        assert parts[1..] == rest;
      } else {
        assert parts[1..] == rest[1..];
        if |rest| > 1 {
          var tail := Join(rest[1..], sep);
          assert [text[0]] + rest[0] + [sep] + tail == [text[0]] + (rest[0] + [sep] + tail);
        }
      }
    }
  }

  lemma {:induction false} CutAcross(a: string, b: string, sep: char)
    ensures Cut(a + [sep] + b, sep) == Cut(a, sep) + Cut(b, sep)
  {
    var text := a + [sep] + b;
    if a == [] {
      assert text[1..] == b;
    } else {
      assert text[1..] == a[1..] + [sep] + b;
      CutAcross(a[1..], b, sep);
    }
  }

  /** The names cut at each comma; no name at all reads like one empty name. */
  function Pieces(cols: seq<string>): seq<string> {
    if cols == [] then [[]]
    else Cut(cols[0], ',') + if |cols| == 1 then [] else Pieces(cols[1..])
  }

  lemma {:induction false} CutJoin(cols: seq<string>)
    ensures Cut(Join(cols, ','), ',') == Pieces(cols)
  {
    if |cols| > 1 {
      CutJoin(cols[1..]);
      CutAcross(cols[0], Join(cols[1..], ','), ',');
    }
  }

  lemma {:induction false} CutPlain(text: string, sep: char)
    requires sep !in text
    ensures Cut(text, sep) == [text]
  {
    if text != [] {
      CutPlain(text[1..], sep);
      assert text == [text[0]] + text[1..];
    }
  }

  /** Names without commas are their own pieces. */
  lemma {:induction false} PlainPieces(cols: seq<string>)
    requires cols != [] && Separable(cols, ',')
    ensures Pieces(cols) == cols
  {
    CutPlain(cols[0], ',');
    if |cols| > 1 {
      PlainPieces(cols[1..]);
      assert cols == [cols[0]] + cols[1..];
    }
  }

  /** Two cache keys are equal exactly when the tables are and the names have the same pieces. */
  lemma CacheKeyIdentifies(m: nat, a: seq<string>, n: nat, b: seq<string>)
    ensures CacheKey(m, a) == CacheKey(n, b) <==> m == n && Pieces(a) == Pieces(b)
  {
    var s, t := Join(a, ','), Join(b, ',');
    CutJoin(a);
    CutJoin(b);
    JoinCut(s, ',');
    JoinCut(t, ',');
    if CacheKey(m, a) == CacheKey(n, b) {
      SplitAtSeparator(Itoa(m), Itoa(n), s, t, ':');
      ItoaInjective(m, n);
    }
  }

  /** A comma in a column name can make two different column lists share a key. */
  lemma CacheKeyCollision()
    ensures CacheKey(1, ["a,b"]) == CacheKey(1, ["a", "b"]) && ["a,b"] != ["a", "b"]
  {
    assert Join(["a", "b"], ',') == "a" + "," + Join(["a", "b"][1..], ',');
    assert ["a", "b"][1..] == ["b"];
    assert "a" + "," + "b" == "a,b";
    assert |["a,b"]| != |["a", "b"]|;
  }
}
