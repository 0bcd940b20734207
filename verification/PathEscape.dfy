/** Path::sanitizePath and unSanitizePath: nine replacements one after the other. */
module PathEscape {
  import opened Sequences

  const FORBIDDEN: string := ['?', '/', '\\', '*', ':', '"', '<', '>', '|']
  const ENTITIES: seq<string> := ["&#63;", "&#47;", "&#92;", "&#42;", "&#58;", "&#34;", "&#60;", "&#62;", "&#124;"]

  function Decimal(n: nat): string {
    if n < 10 then [('0' as int + n) as char] else Decimal(n / 10) + [('0' as int + n % 10) as char]
  }

  /** An entity is the character's number between "&#" and ";". */
  lemma EntityIsNumber(j: nat)
    requires j < 9
    ensures ENTITIES[j] == "&#" + Decimal(FORBIDDEN[j] as int) + ";"
  {
    assert Decimal(124) == "124" by { assert Decimal(12) == "12"; }
  }

  // ----- the loops -----

  /** QString::replace(QChar, QString) */
  function ReplaceChar(s: string, c: char, e: string): string {
    if s == [] then [] else (if s[0] == c then e else [s[0]]) + ReplaceChar(s[1..], c, e)
  }

  /** QString::replace(QString, QChar): from left to right, what was replaced is not looked at again. */
  function ReplaceText(s: string, e: string, c: char): string
    requires e != ""
  {
    if s == [] then []
    else if e <= s then [c] + ReplaceText(s[|e|..], e, c)
    else [s[0]] + ReplaceText(s[1..], e, c)
  }

  // ----- one substitution -----

  /** The position of c among the first n forbidden characters, or n. */
  function Index(c: char, n: nat): (j: nat)
    requires n <= 9
    ensures j <= n && (j < n ==> FORBIDDEN[j] == c) && (j == n ==> forall k :: 0 <= k < n ==> FORBIDDEN[k] != c)
  {
    if n == 0 then 0
    else
      var j := Index(c, n - 1);
      if j < n - 1 then j else if FORBIDDEN[n - 1] == c then n - 1 else n
  }

  /** Every one of the first n forbidden characters replaced at once. */
  function Escape(s: string, n: nat): string
    requires n <= 9
  {
    if s == [] then []
    else (if Index(s[0], n) < n then ENTITIES[Index(s[0], n)] else [s[0]]) + Escape(s[1..], n)
  }

  /** The first of the first n entities that s starts with, or n. */
  function Head(s: string, n: nat): (j: nat)
    requires n <= 9
    ensures j <= n && (j < n ==> ENTITIES[j] <= s) && (j == n ==> forall k :: 0 <= k < n ==> !(ENTITIES[k] <= s))
  {
    if n == 0 then 0
    else
      var j := Head(s, n - 1);
      if j < n - 1 then j else if ENTITIES[n - 1] <= s then n - 1 else n
  }

  /** No '&' and no forbidden character. */
  predicate Plain(s: string) {
    forall i :: 0 <= i < |s| ==> s[i] != '&' && s[i] !in FORBIDDEN
  }

  /** An '&', then no other '&'; no forbidden character. */
  lemma EntityForm(j: nat)
    requires j < 9
    ensures |ENTITIES[j]| >= 5 && ENTITIES[j][0] == '&' && Plain(ENTITIES[j][1..])
  {
  }

  /** Every one of the first n entities replaced at once, from left to right. */
  function Unescape(s: string, n: nat): string
    requires n <= 9
  {
    if s == [] then []
    else
      var j := Head(s, n);
      if j < n then
        EntityForm(j);
        [FORBIDDEN[j]] + Unescape(s[|ENTITIES[j]|..], n)
      else [s[0]] + Unescape(s[1..], n)
  }

  /** No entity is the beginning of another. */
  lemma EntitiesDiffer(i: nat, j: nat, s: string)
    requires i < 9 && j < 9 && ENTITIES[i] <= s && ENTITIES[j] <= s
    ensures i == j
  {
    EntityForm(i);
    EntityForm(j);
    assert s[2] == ENTITIES[i][2] == ENTITIES[j][2];
    assert s[3] == ENTITIES[i][3] == ENTITIES[j][3];
  }

  // ----- the passes make up the substitution -----

  lemma {:induction false} EscapeNone(s: string)
    ensures Escape(s, 0) == s
  {
    if s == [] {
    } else {
      EscapeNone(s[1..]);
    }
  }

  lemma {:induction false} UnescapeNone(s: string)
    ensures Unescape(s, 0) == s
  {
    if s == [] {
    } else {
      UnescapeNone(s[1..]);
    }
  }

  lemma Cons(a: string, s: string)
    requires a != []
    ensures a + s == [a[0]] + (a[1..] + s)
  {
  }

  lemma ReplaceCharCons(x: char, s: string, c: char, e: string)
    ensures ReplaceChar([x] + s, c, e) == (if x == c then e else [x]) + ReplaceChar(s, c, e)
  {
    assert ([x] + s)[1..] == s;
  }

  lemma {:induction false} ReplaceCharAppend(a: string, b: string, c: char, e: string)
    ensures ReplaceChar(a + b, c, e) == ReplaceChar(a, c, e) + ReplaceChar(b, c, e)
  {
    if a == [] {
      assert a + b == b;
    } else {
      Cons(a, b);
      ReplaceCharCons(a[0], a[1..] + b, c, e);
      ReplaceCharAppend(a[1..], b, c, e);
      Assoc(if a[0] == c then e else [a[0]], ReplaceChar(a[1..], c, e), ReplaceChar(b, c, e));
    }
  }

  lemma {:induction false} ReplaceCharAbsent(s: string, c: char, e: string)
    requires c !in s
    ensures ReplaceChar(s, c, e) == s
  {
    if s == [] {
    } else {
      ReplaceCharAbsent(s[1..], c, e);
    }
  }

  lemma {:induction false} EscapeStep(s: string, i: nat)
    requires i < 9
    ensures ReplaceChar(Escape(s, i), FORBIDDEN[i], ENTITIES[i]) == Escape(s, i + 1)
  {
    if s == [] {
    } else {
      var c, e := FORBIDDEN[i], ENTITIES[i];
      EscapeStep(s[1..], i);
      var j := Index(s[0], i);
      var head := if j < i then ENTITIES[j] else [s[0]];
      ReplaceCharAppend(head, Escape(s[1..], i), c, e);
      if j < i {
        EntityForm(j);
        assert ENTITIES[j] == [ENTITIES[j][0]] + ENTITIES[j][1..];
        ReplaceCharAbsent(head, c, e);
      } else {
        assert head[1..] == [];
      }
    }
  }

  method SanitizePath(path: string) returns (r: string)
    ensures r == Escape(path, 9)
  {
    r := path;
    EscapeNone(path);
    for i := 0 to 9
      invariant r == Escape(path, i)
    {
      EscapeStep(path, i);
      r := ReplaceChar(r, FORBIDDEN[i], ENTITIES[i]);
    }
  }

  lemma EntityStarts()
    ensures forall k :: 0 <= k < 9 ==> ENTITIES[k] != [] && ENTITIES[k][0] == '&'
  {
    forall k: nat | k < 9 ensures ENTITIES[k] != [] && ENTITIES[k][0] == '&' { EntityForm(k); }
  }

  /** No entity starts with anything but '&'. */
  lemma HeadOfPlain(s: string, n: nat)
    requires n <= 9 && s != [] && s[0] != '&'
    ensures Head(s, n) == n
  {
    EntityStarts();
  }

  lemma UnescapeCons(c: char, s: string, n: nat)
    requires n <= 9 && c != '&'
    ensures Unescape([c] + s, n) == [c] + Unescape(s, n)
  {
    var t := [c] + s;
    HeadOfPlain(t, n);
    assert t[1..] == s;
  }

  /** Text without '&' passes through. */
  lemma {:induction false} UnescapePlain(a: string, s: string, n: nat)
    requires n <= 9 && Plain(a)
    ensures Unescape(a + s, n) == a + Unescape(s, n)
  {
    if a == [] {
      assert a + s == s;
    } else {
      Cons(a, s);
      UnescapeCons(a[0], a[1..] + s, n);
      UnescapePlain(a[1..], s, n);
      Cons(a, Unescape(s, n));
    }
  }

  lemma FrontKept(s: string, n: nat)
    requires n <= 9 && s != [] && Unescape(s, n)[0] !in FORBIDDEN
    ensures Unescape(s, n) == [s[0]] + Unescape(s[1..], n)
  {
  }

  lemma TailPrefix(w: string, x: char, r: string)
    requires w != [] && w <= [x] + r
    ensures w[0] == x && w[1..] <= r
  {
    assert ([x] + r)[1..] == r;
  }

  lemma Glue(e: string, s: string)
    requires e != [] && s != [] && e[0] == s[0] && e[1..] <= s[1..]
    ensures e <= s
  {
    assert s == [s[0]] + s[1..] && e == [e[0]] + e[1..];
  }

  /** Plain text at the front of the result was at the front of the source. */
  lemma {:induction false} UnescapeFront(w: string, s: string, n: nat)
    requires n <= 9 && Plain(w) && w <= Unescape(s, n)
    ensures w <= s
  {
    if w == [] {
    } else {
      assert s != [] && w[0] == Unescape(s, n)[0];
      FrontKept(s, n);
      TailPrefix(w, s[0], Unescape(s[1..], n));
      UnescapeFront(w[1..], s[1..], n);
      Glue(w, s);
    }
  }

  lemma ReplaceTextSkips(s: string, e: string, c: char)
    requires s != [] && e != "" && !(e <= s)
    ensures ReplaceText(s, e, c) == [s[0]] + ReplaceText(s[1..], e, c)
  {
  }

  lemma ReplaceTextTakes(s: string, e: string, c: char)
    requires s != [] && e != "" && e <= s
    ensures ReplaceText(s, e, c) == [c] + ReplaceText(s[|e|..], e, c)
  {
  }

  lemma NoNewEntity(s: string, i: nat)
    requires i < 9 && s != [] && !(ENTITIES[i] <= s)
    ensures !(ENTITIES[i] <= [s[0]] + Unescape(s[1..], i))
  {
    var e := ENTITIES[i];
    var rest := Unescape(s[1..], i);
    EntityForm(i);
    if e <= [s[0]] + rest {
      assert e[1..] <= ([s[0]] + rest)[1..] == rest;
      UnescapeFront(e[1..], s[1..], i);
      Glue(e, s);
    }
  }

  /** Neither: the pass does not find entity i there either. */
  lemma StepOverOther(s: string, i: nat)
    requires i < 9 && s != [] && Head(s, i) == i && !(ENTITIES[i] <= s)
    requires ReplaceText(Unescape(s[1..], i), ENTITIES[i], FORBIDDEN[i]) == Unescape(s[1..], i + 1)
    ensures ReplaceText(Unescape(s, i), ENTITIES[i], FORBIDDEN[i]) == Unescape(s, i + 1)
  {
    var u := Unescape(s, i);
    assert u == [s[0]] + Unescape(s[1..], i) && u[1..] == Unescape(s[1..], i);
    NoNewEntity(s, i);
    ReplaceTextSkips(u, ENTITIES[i], FORBIDDEN[i]);
  }

  lemma TakeEntity(e: string, s: string)
    requires e != [] && e <= s
    ensures s[1..] == e[1..] + s[|e|..]
  {
  }

  lemma UnescapeEntityLater(s: string, i: nat)
    requires i < 9 && Head(s, i) == i && ENTITIES[i] <= s
    ensures Unescape(s, i) == ENTITIES[i] + Unescape(s[|ENTITIES[i]|..], i)
  {
    var e := ENTITIES[i];
    EntityForm(i);
    var rest := s[|e|..];
    TakeEntity(e, s);
    UnescapePlain(e[1..], rest, i);
    Cons(e, Unescape(rest, i));
  }

  /** Entity i at the head: the pass finds it there. */
  lemma StepOverEntity(s: string, i: nat)
    requires i < 9 && Head(s, i) == i && ENTITIES[i] <= s
    requires var rest := s[|ENTITIES[i]|..];
             ReplaceText(Unescape(rest, i), ENTITIES[i], FORBIDDEN[i]) == Unescape(rest, i + 1)
    ensures ReplaceText(Unescape(s, i), ENTITIES[i], FORBIDDEN[i]) == Unescape(s, i + 1)
  {
    var e := ENTITIES[i];
    EntityForm(i);
    var rest := s[|e|..];
    UnescapeEntityLater(s, i);
    var u := e + Unescape(rest, i);
    assert u[|e|..] == Unescape(rest, i);
    ReplaceTextTakes(u, e, FORBIDDEN[i]);
  }

  lemma NotAmp(j: nat)
    requires j < 9
    ensures FORBIDDEN[j] != '&'
  {
  }

  /** An earlier entity at the head: it is gone already, and no new one begins there. */
  lemma StepOverReplaced(s: string, i: nat, j: nat)
    requires i < 9 && s != [] && Head(s, i) == j < i && |ENTITIES[j]| <= |s|
    requires var rest := s[|ENTITIES[j]|..];
             ReplaceText(Unescape(rest, i), ENTITIES[i], FORBIDDEN[i]) == Unescape(rest, i + 1)
    ensures ReplaceText(Unescape(s, i), ENTITIES[i], FORBIDDEN[i]) == Unescape(s, i + 1)
  {
    var u := Unescape(s, i);
    var rest := Unescape(s[|ENTITIES[j]|..], i);
    assert u == [FORBIDDEN[j]] + rest && u[1..] == rest;
    EntityForm(i);
    NotAmp(j);
    ReplaceTextSkips(u, ENTITIES[i], FORBIDDEN[i]);
  }

  lemma {:induction false} UnescapeStep(s: string, i: nat)
    requires i < 9
    ensures ReplaceText(Unescape(s, i), ENTITIES[i], FORBIDDEN[i]) == Unescape(s, i + 1)
    decreases |s|
  {
    if s == [] {
    } else {
      var j := Head(s, i);
      if j < i {
        EntityForm(j);
        UnescapeStep(s[|ENTITIES[j]|..], i);
        StepOverReplaced(s, i, j);
      } else if ENTITIES[i] <= s {
        EntityForm(i);
        UnescapeStep(s[|ENTITIES[i]|..], i);
        StepOverEntity(s, i);
      } else {
        UnescapeStep(s[1..], i);
        StepOverOther(s, i);
      }
    }
  }

  method UnSanitizePath(path: string) returns (r: string)
    ensures r == Unescape(path, 9)
  {
    r := path;
    UnescapeNone(path);
    for i := 0 to 9
      invariant r == Unescape(path, i)
    {
      UnescapeStep(path, i);
      r := ReplaceText(r, ENTITIES[i], FORBIDDEN[i]);
    }
  }

  // ----- what sanitizing promises -----

  predicate Clean(s: string) {
    forall i :: 0 <= i < |s| ==> s[i] !in FORBIDDEN
  }

  predicate HasEntity(s: string) {
    exists k :: 0 <= k < |s| && Head(s[k..], 9) < 9
  }

  /** The result has no forbidden character. */
  lemma {:induction false} SanitizedIsClean(s: string)
    ensures Clean(Escape(s, 9))
  {
    if s == [] {
    } else {
      SanitizedIsClean(s[1..]);
      var j := Index(s[0], 9);
      if j < 9 {
        EntityForm(j);
        assert ENTITIES[j] == ['&'] + ENTITIES[j][1..];
      }
    }
  }

  /** Clean text is left alone, so sanitizing twice is sanitizing once. */
  lemma {:induction false} CleanIsFixed(s: string)
    requires Clean(s)
    ensures Escape(s, 9) == s
  {
    if s == [] {
    } else {
      assert s[0] !in FORBIDDEN;
      CleanIsFixed(s[1..]);
    }
  }

  lemma SanitizeTwice(s: string)
    ensures Escape(Escape(s, 9), 9) == Escape(s, 9)
  {
    SanitizedIsClean(s);
    CleanIsFixed(Escape(s, 9));
  }

  lemma EscapedFrontKept(s: string)
    requires s != [] && Escape(s, 9)[0] != '&'
    ensures Escape(s, 9) == [s[0]] + Escape(s[1..], 9)
  {
    EntityStarts();
  }

  /** Plain text at the front of the sanitized text was at the front of the source. */
  lemma {:induction false} EscapeFront(w: string, s: string)
    requires Plain(w) && w <= Escape(s, 9)
    ensures w <= s
  {
    if w == [] {
    } else {
      assert s != [] && w[0] == Escape(s, 9)[0];
      EscapedFrontKept(s);
      TailPrefix(w, s[0], Escape(s[1..], 9));
      EscapeFront(w[1..], s[1..]);
      Glue(w, s);
    }
  }

  lemma EscapeCons(c: char, s: string)
    requires c !in FORBIDDEN
    ensures Escape([c] + s, 9) == [c] + Escape(s, 9)
  {
    var t := [c] + s;
    assert t[1..] == s;
    assert Index(c, 9) == 9;
  }

  lemma {:induction false} EscapePlain(a: string, s: string)
    requires Clean(a)
    ensures Escape(a + s, 9) == a + Escape(s, 9)
  {
    if a == [] {
      assert a + s == s;
    } else {
      Cons(a, s);
      EscapeCons(a[0], a[1..] + s);
      EscapePlain(a[1..], s);
      Cons(a, Escape(s, 9));
    }
  }

  /** An entity in front of any text is taken back. */
  lemma UnescapeEntity(j: nat, s: string)
    requires j < 9
    ensures Unescape(ENTITIES[j] + s, 9) == [FORBIDDEN[j]] + Unescape(s, 9)
  {
    var t := ENTITIES[j] + s;
    EntityForm(j);
    assert ENTITIES[j] <= t;
    EntitiesDiffer(j, Head(t, 9), t);
    assert t[|ENTITIES[j]|..] == s;
  }

  /** An entity at the head of the sanitized text stands for a forbidden character of the source
      or was there before. */
  lemma HeadOfEscaped(s: string)
    requires s != [] && Index(s[0], 9) == 9
    ensures Head(Escape(s, 9), 9) < 9 ==> Head(s, 9) == Head(Escape(s, 9), 9)
  {
    var t := Escape(s, 9);
    assert t == [s[0]] + Escape(s[1..], 9);
    var j := Head(t, 9);
    if j < 9 {
      var e := ENTITIES[j];
      EntityForm(j);
      assert t[1..] == Escape(s[1..], 9) && e[1..] <= t[1..];
      EscapeFront(e[1..], s[1..]);
      assert e == [e[0]] + e[1..] && e <= s;
      EntitiesDiffer(j, Head(s, 9), s);
    }
  }

  /** The text after there and back. */
  function Back(s: string): string {
    Unescape(Escape(s, 9), 9)
  }

  lemma BackOfForbidden(s: string)
    requires s != [] && Index(s[0], 9) < 9
    ensures Back(s) == [s[0]] + Back(s[1..]) && Head(s, 9) == 9
  {
    var i := Index(s[0], 9);
    UnescapeEntity(i, Escape(s[1..], 9));
    NotAmp(i);
    HeadOfPlain(s, 9);
  }

  lemma BackOfEntity(s: string)
    requires s != [] && Head(s, 9) < 9
    ensures var e := ENTITIES[Head(s, 9)];
            && 5 <= |e| <= |s| && Back(s) == [FORBIDDEN[Head(s, 9)]] + Back(s[|e|..])
  {
    var j := Head(s, 9);
    var e := ENTITIES[j];
    EntityForm(j);
    var rest := s[|e|..];
    assert s == e + rest && e == ['&'] + e[1..];
    EscapePlain(e, rest);
    UnescapeEntity(j, Escape(rest, 9));
  }

  lemma BackOfOther(s: string)
    requires s != [] && Index(s[0], 9) == 9 && Head(s, 9) == 9
    ensures Back(s) == [s[0]] + Back(s[1..])
  {
    HeadOfEscaped(s);
    assert Escape(s, 9)[1..] == Escape(s[1..], 9);
  }

  lemma HasEntityTail(s: string)
    requires s != [] && Head(s, 9) == 9
    ensures HasEntity(s) <==> HasEntity(s[1..])
  {
    if HasEntity(s) {
      var k :| 0 <= k < |s| && Head(s[k..], 9) < 9;
      assert s[0..] == s;
      assert s[1..][k - 1..] == s[k..];
    }
    if HasEntity(s[1..]) {
      var k :| 0 <= k < |s[1..]| && Head(s[1..][k..], 9) < 9;
      assert s[1..][k..] == s[k + 1..];
    }
  }

  /** Shorter exactly when the source had an entity, and else the source. */
  predicate ComesBack(s: string) {
    if HasEntity(s) then |Back(s)| < |s| else Back(s) == s
  }

  lemma ComesBackAfterEntity(s: string)
    requires s != [] && Head(s, 9) < 9 && ComesBack(s[|ENTITIES[Head(s, 9)]|..])
    ensures ComesBack(s)
  {
    var rest := s[|ENTITIES[Head(s, 9)]|..];
    BackOfEntity(s);
    assert |Back(rest)| <= |rest|;
    assert s[0..] == s;
    assert HasEntity(s);
  }

  lemma BackOfOne(s: string)
    requires s != [] && Head(s, 9) == 9
    ensures Back(s) == [s[0]] + Back(s[1..])
  {
    if Index(s[0], 9) < 9 { BackOfForbidden(s); } else { BackOfOther(s); }
  }

  lemma ComesBackAfterOne(s: string)
    requires s != [] && Head(s, 9) == 9 && ComesBack(s[1..])
    ensures ComesBack(s)
  {
    BackOfOne(s);
    HasEntityTail(s);
    assert s == [s[0]] + s[1..];
  }

  /** Unsanitizing the sanitized text never makes it longer than the source, makes it shorter
      exactly when the source had an entity, and otherwise gives the source back. */
  lemma {:induction false} RoundTripLength(s: string)
    ensures ComesBack(s)
    decreases |s|
  {
    if s == [] {
    } else if Head(s, 9) < 9 {
      EntityForm(Head(s, 9));
      RoundTripLength(s[|ENTITIES[Head(s, 9)]|..]);
      ComesBackAfterEntity(s);
    } else {
      RoundTripLength(s[1..]);
      ComesBackAfterOne(s);
    }
  }

  /** unSanitizePath undoes sanitizePath on exactly the texts that contain no entity. */
  lemma UnsanitizeSanitizeIff(s: string)
    ensures Back(s) == s <==> !HasEntity(s)
  {
    RoundTripLength(s);
  }

  lemma IndexOfForbidden(j: nat)
    requires j < 9
    ensures Index(FORBIDDEN[j], 9) == j
  {
    var k := Index(FORBIDDEN[j], 9);
    assert FORBIDDEN[k] == FORBIDDEN[j];
  }

  lemma {:induction false} SanitizeUnsanitize(t: string)
    requires Clean(t)
    ensures Escape(Unescape(t, 9), 9) == t
    decreases |t|
  {
    if t == [] {
    } else {
      var j := Head(t, 9);
      if j < 9 {
        EntityForm(j);
        var rest := t[|ENTITIES[j]|..];
        SanitizeUnsanitize(rest);
        IndexOfForbidden(j);
        assert Unescape(t, 9)[1..] == Unescape(rest, 9);
        assert t == ENTITIES[j] + rest;
      } else {
        SanitizeUnsanitize(t[1..]);
        assert t[0] !in FORBIDDEN;
        assert Unescape(t, 9)[1..] == Unescape(t[1..], 9);
      }
    }
  }

  /** sanitizePath undoes unSanitizePath on exactly the texts without forbidden characters. */
  lemma SanitizeUnsanitizeIff(t: string)
    ensures Escape(Unescape(t, 9), 9) == t <==> Clean(t)
  {
    SanitizedIsClean(Unescape(t, 9));
    if Clean(t) {
      SanitizeUnsanitize(t);
    }
  }

  /** The entity of '?' comes back as '?'. */
  lemma EntityIsLost()
    ensures Unescape(Escape("&#63;", 9), 9) == "?"
  {
    var s := "&#63;";
    assert s == ENTITIES[0] && Clean(s);
    CleanIsFixed(s);
    UnescapeEntity(0, "");
    assert s + "" == s;
  }

  // ----- character by character -----

  function EntityOf(c: char): string {
    "&#" + Decimal(c as int) + ";"
  }

  lemma {:induction false} EscapeAppend(a: string, b: string)
    ensures Escape(a + b, 9) == Escape(a, 9) + Escape(b, 9)
  {
    if a == [] {
      assert a + b == b;
    } else {
      EscapeAppend(a[1..], b);
      Cons(a, b);
      assert (a + b)[1..] == a[1..] + b && (a + b)[0] == a[0];
      Assoc(if Index(a[0], 9) < 9 then ENTITIES[Index(a[0], 9)] else [a[0]], Escape(a[1..], 9), Escape(b, 9));
    }
  }

  lemma EscapeChar(c: char)
    ensures Escape([c], 9) == if c in FORBIDDEN then EntityOf(c) else [c]
  {
    var j := Index(c, 9);
    assert [c][1..] == [];
    if j < 9 {
      assert FORBIDDEN[j] == c && c in FORBIDDEN;
      EntityIsNumber(j);
    } else {
      assert c !in FORBIDDEN;
    }
  }

  /** Sanitizing replaces each forbidden character by the entity of its number, and nothing else. */
  lemma EscapeEach(a: string, c: char, b: string)
    ensures Escape([], 9) == []
    ensures Escape(a + [c] + b, 9) == Escape(a, 9) + (if c in FORBIDDEN then EntityOf(c) else [c]) + Escape(b, 9)
  {
    EscapeAppend(a + [c], b);
    EscapeAppend(a, [c]);
    EscapeChar(c);
  }

  lemma ForbiddenAt(c: char) returns (j: nat)
    requires c in FORBIDDEN
    ensures j < 9 && FORBIDDEN[j] == c && ENTITIES[j] == EntityOf(c)
  {
    j :| 0 <= j < 9 && FORBIDDEN[j] == c;
    EntityIsNumber(j);
  }

  lemma NoHead(s: string)
    ensures (forall c :: c in FORBIDDEN ==> !(EntityOf(c) <= s)) <==> Head(s, 9) == 9
  {
    var j := Head(s, 9);
    if j < 9 {
      EntityIsNumber(j);
      assert FORBIDDEN[j] in FORBIDDEN && EntityOf(FORBIDDEN[j]) <= s;
    } else {
      forall c | c in FORBIDDEN ensures !(EntityOf(c) <= s) {
        var k := ForbiddenAt(c);
        assert !(ENTITIES[k] <= s);
      }
    }
  }

  /** Unsanitizing replaces an entity at the front by its character and goes on behind it, and passes
      over a character at which no entity begins. */
  lemma UnescapeEach(s: string)
    ensures Unescape([], 9) == []
    ensures forall c :: c in FORBIDDEN ==> Unescape(EntityOf(c) + s, 9) == [c] + Unescape(s, 9)
    ensures s != [] && (forall c :: c in FORBIDDEN ==> !(EntityOf(c) <= s)) ==>
              Unescape(s, 9) == [s[0]] + Unescape(s[1..], 9)
  {
    forall c | c in FORBIDDEN ensures Unescape(EntityOf(c) + s, 9) == [c] + Unescape(s, 9) {
      var j := ForbiddenAt(c);
      UnescapeEntity(j, s);
    }
    if s != [] && forall c :: c in FORBIDDEN ==> !(EntityOf(c) <= s) {
      NoHead(s);
    }
  }

  /** The texts that do not come back: somewhere an entity begins. */
  lemma HasEntityIff(s: string)
    ensures HasEntity(s) <==> exists k, c :: 0 <= k < |s| && c in FORBIDDEN && EntityOf(c) <= s[k..]
  {
    if HasEntity(s) {
      var k :| 0 <= k < |s| && Head(s[k..], 9) < 9;
      NoHead(s[k..]);
    }
    if k, c :| 0 <= k < |s| && c in FORBIDDEN && EntityOf(c) <= s[k..] {
      NoHead(s[k..]);
    }
  }
}
