/** The pieces of Go's `strings` and `regexp` packages the converter uses,
    on strings of characters. */
module Text {

  /** Characters `strings.TrimSpace` removes, those of Go's `unicode.IsSpace`:
      ASCII white space (tab, line feed, vertical tab, form feed, carriage
      return, space), U+0085, U+00A0, and the white space of the Unicode
      tables: U+1680, U+2000 to U+200A, U+2028, U+2029, U+202F, U+205F, U+3000. */
  predicate IsSpace(c: char) {
    var n := c as int;
    || c == ' ' || ('\t' <= c <= '\r') || n == 0x85 || n == 0xA0
    || n == 0x1680 || (0x2000 <= n <= 0x200A) || n == 0x2028 || n == 0x2029
    || n == 0x202F || n == 0x205F || n == 0x3000
  }

  function TrimLeft(s: string): (r: string)
    ensures |r| <= |s| && r == s[|s| - |r|..]
    ensures r != [] ==> !IsSpace(r[0])
    ensures forall i | 0 <= i < |s| - |r| :: IsSpace(s[i])
  {
    if s != [] && IsSpace(s[0]) then TrimLeft(s[1..]) else s
  }

  function TrimRight(s: string): (r: string)
    ensures |r| <= |s| && r == s[..|r|]
    ensures r != [] ==> !IsSpace(r[|r| - 1])
    ensures forall i | |r| <= i < |s| :: IsSpace(s[i])
  {
    if s != [] && IsSpace(s[|s| - 1]) then TrimRight(s[..|s| - 1]) else s
  }

  /** r is the slice of s starting at i, and all of s around it is white space. */
  predicate TrimmedAt(s: string, r: string, i: int) {
    && 0 <= i <= |s| - |r|
    && r == s[i..i + |r|]
    && (forall k | 0 <= k < i :: IsSpace(s[k]))
    && (forall k | i + |r| <= k < |s| :: IsSpace(s[k]))
  }

  /** `strings.TrimSpace`: the result is a slice of the input with white
      space on neither end, and only white space was cut away. */
  function TrimSpace(s: string): (r: string)
    ensures exists i :: TrimmedAt(s, r, i)
    ensures r != [] ==> !IsSpace(r[0]) && !IsSpace(r[|r| - 1])
  {
    var l := TrimLeft(s);
    TrimBothAt(s, l, TrimRight(l));
    TrimRight(l)
  }

  /** Trimming the left and then the right leaves the slice starting
      where the left trim stopped. */
  lemma TrimBothAt(s: string, l: string, r: string)
    requires |l| <= |s| && l == s[|s| - |l|..] && forall k | 0 <= k < |s| - |l| :: IsSpace(s[k])
    requires |r| <= |l| && r == l[..|r|] && forall k | |r| <= k < |l| :: IsSpace(l[k])
    ensures TrimmedAt(s, r, |s| - |l|)
  {
    var i := |s| - |l|;
    forall k | 0 <= k < |r| ensures r[k] == s[i + k] {
      assert r[k] == l[k] == s[i + k];
    }
    assert r == s[i..i + |r|];
    forall k | i + |r| <= k < |s| ensures IsSpace(s[k]) {
      assert s[k] == l[k - i];
    }
  }

  /** `strings.Index` for one character: -1 when absent, else the first position. */
  function IndexOf(s: string, c: char): (r: int)
    ensures -1 <= r < |s|
    ensures r == -1 <==> c !in s
    ensures r >= 0 ==> s[r] == c && c !in s[..r]
  {
    if s == [] then -1
    else if s[0] == c then 0
    else
      var k := IndexOf(s[1..], c);
      assert s[1..][..k + 1] == s[1..k + 2];
      if k < 0 then -1 else k + 1
  }

  predicate OccursAt(s: string, t: string, i: int) {
    0 <= i <= |s| - |t| && s[i..i + |t|] == t
  }

  /** `strings.Contains`. */
  predicate Contains(s: string, t: string) {
    exists i | 0 <= i <= |s| - |t| :: OccursAt(s, t, i)
  }

  /** `strings.Join`. */
  function Join(parts: seq<string>, sep: string): string
  {
    if |parts| == 0 then ""
    else if |parts| == 1 then parts[0]
    else parts[0] + sep + Join(parts[1..], sep)
  }

  lemma {:induction false} JoinSnoc(parts: seq<string>, sep: string, p: string)
    ensures Join(parts + [p], sep) == if parts == [] then p else Join(parts, sep) + sep + p
  {
    if |parts| > 1 {
      assert (parts + [p])[1..] == parts[1..] + [p];
      JoinSnoc(parts[1..], sep, p);
    } else if |parts| == 1 {
      assert (parts + [p])[1..] == [p];
    }
  }

  /** `strings.Split` on a one-character separator. */
  function Split(s: string, c: char): (parts: seq<string>)
    ensures |parts| >= 1
    ensures forall i | 0 <= i < |parts| :: c !in parts[i]
    ensures Join(parts, [c]) == s
    decreases |s|
  {
    var i := IndexOf(s, c);
    if i < 0 then [s]
    else
      var rest := Split(s[i + 1..], c);
      assert s == s[..i] + [c] + s[i + 1..];
      [s[..i]] + rest
  }

  /** Splitting and re-joining is the identity on the pieces: the first piece
      is the text before the first separator. */
  lemma SplitFirst(s: string, c: char)
    ensures Split(s, c)[0] == if c in s then s[..IndexOf(s, c)] else s
    ensures (|Split(s, c)| == 1) <==> c !in s
  {
  }

  /** The characters `regexp.QuoteMeta` escapes. */
  predicate IsMeta(c: char) {
    c in "\\.+*?()|[]{}^$"
  }

  /** `regexp.QuoteMeta`: a backslash before each special character. */
  function QuoteMeta(s: string): string
  {
    if s == [] then ""
    else (if IsMeta(s[0]) then ['\\', s[0]] else [s[0]]) + QuoteMeta(s[1..])
  }

  /** Drops the escaping backslashes again: the partner of QuoteMeta. */
  function Unquote(t: string): string
  {
    if t == [] then ""
    else if t[0] == '\\' && |t| > 1 then [t[1]] + Unquote(t[2..])
    else [t[0]] + Unquote(t[1..])
  }

  lemma {:induction false} UnquoteQuoteMeta(s: string)
    ensures Unquote(QuoteMeta(s)) == s
  {
    if s != [] {
      UnquoteQuoteMeta(s[1..]);
      var q := QuoteMeta(s);
      if IsMeta(s[0]) {
        assert q[0] == '\\' && q[1] == s[0] && q[2..] == QuoteMeta(s[1..]);
      } else {
        assert q[0] == s[0] && q[1..] == QuoteMeta(s[1..]);
      }
    }
  }

  /** Quoting works character by character. */
  lemma {:induction false} QuoteMetaAppend(a: string, b: string)
    ensures QuoteMeta(a + b) == QuoteMeta(a) + QuoteMeta(b)
  {
    if a != [] {
      assert (a + b)[1..] == a[1..] + b;
      QuoteMetaAppend(a[1..], b);
    } else {
      assert a + b == b;
    }
  }

  /** Text without special characters is left as it is. */
  lemma {:induction false} QuoteMetaPlain(s: string)
    requires forall i | 0 <= i < |s| :: !IsMeta(s[i])
    ensures QuoteMeta(s) == s
  {
    if s != [] {
      QuoteMetaPlain(s[1..]);
    }
  }

  /** Quoting adds only backslashes: a character that is not special is in
      the quoted text exactly when it is in the input. */
  lemma {:induction false} QuoteMetaKeeps(s: string, c: char)
    requires !IsMeta(c)
    ensures c in QuoteMeta(s) <==> c in s
  {
    if s != [] {
      QuoteMetaKeeps(s[1..], c);
      assert s == [s[0]] + s[1..];
    }
  }

  /** Splitting text whose first piece holds no separator peels that piece off. */
  lemma SplitCons(x: string, y: string, c: char)
    requires c !in x
    ensures Split(x + [c] + y, c) == [x] + Split(y, c)
  {
    var s := x + [c] + y;
    var i := IndexOf(s, c);
    assert s[|x|] == c;
    assert s[..|x|] == x;
    assert i == |x|;
    assert s[i + 1..] == y;
  }

  lemma SplitNone(x: string, c: char)
    requires c !in x
    ensures Split(x, c) == [x]
  {
  }

  /** The text before the first c, or all of s when c does not occur. */
  function CutAt(s: string, c: char): (r: string)
    ensures r <= s && c !in r
    ensures |r| < |s| ==> s[|r|] == c
  {
    var i := IndexOf(s, c);
    if i < 0 then s else s[..i]
  }

  /** A text holding c is the part before its first c, c, and the rest. */
  lemma CutAtShape(s: string, c: char)
    requires c in s
    ensures var x := CutAt(s, c);
      |x| < |s| && s == x + [c] + s[|x| + 1..]
  {
    var i := IndexOf(s, c);
    assert CutAt(s, c) == s[..i];
    assert s == s[..i] + [s[i]] + s[i + 1..];
  }

  /** `strings.TrimPrefix`. */
  function TrimPrefix(s: string, p: string): (r: string)
    ensures p <= s ==> p + r == s
    ensures !(p <= s) ==> r == s
  {
    if p <= s then s[|p|..] else s
  }

  /** `strings.HasSuffix`. */
  predicate HasSuffix(s: string, p: string) {
    |p| <= |s| && s[|s| - |p|..] == p
  }

  /** `strings.TrimSuffix`. */
  function TrimSuffix(s: string, p: string): (r: string)
    ensures HasSuffix(s, p) ==> r + p == s
    ensures !HasSuffix(s, p) ==> r == s
  {
    if HasSuffix(s, p) then s[..|s| - |p|] else s
  }
  /** Text before the first c is unaffected by what follows a c-free prefix. */
  lemma CutAtAppend(x: string, y: string, c: char)
    requires c !in x
    ensures CutAt(x + y, c) == x + CutAt(y, c)
  {
    var s := x + y;
    assert s[..|x|] == x;
    if c in y {
      var k := IndexOf(y, c);
      assert s[|x| + k] == c;
      assert c !in s[..|x| + k] by {
        assert s[..|x| + k] == x + y[..k];
      }
      assert IndexOf(s, c) == |x| + k;
      assert s[..|x| + k] == x + y[..k];
    } else {
      assert c !in s by {
        assert forall i | 0 <= i < |s| :: s[i] == if i < |x| then x[i] else y[i - |x|];
      }
    }
  }

  /** Each piece quoted with `regexp.QuoteMeta`. */
  function QuoteAll(parts: seq<string>): (r: seq<string>)
    ensures |r| == |parts|
    ensures forall i | 0 <= i < |parts| :: r[i] == QuoteMeta(parts[i])
  {
    if parts == [] then [] else [QuoteMeta(parts[0])] + QuoteAll(parts[1..])
  }

  /** Quoting the pieces and joining them with an escaped dot is quoting the
      dot-joined text: the dot is itself a special character. */
  lemma {:induction false} QuoteMetaJoin(parts: seq<string>)
    ensures QuoteMeta(Join(parts, ".")) == Join(QuoteAll(parts), @"\.")
  {
    if |parts| > 1 {
      var rest := Join(parts[1..], ".");
      var quoted := QuoteAll(parts);
      QuoteMetaJoin(parts[1..]);
      assert quoted[1..] == QuoteAll(parts[1..]);
      assert Join(quoted, @"\.") == QuoteMeta(parts[0]) + @"\." + QuoteMeta(rest);
      AppendAssoc(parts[0], ".", rest);
      QuoteMetaAppend(parts[0], "." + rest);
      QuoteMetaAppend(".", rest);
      assert QuoteMeta(".") == @"\.";
      AppendAssoc(QuoteMeta(parts[0]), @"\.", QuoteMeta(rest));
    }
  }

  /** So the quoted pieces of a dot-split text, joined with `\.`, are the
      quoted text. */
  lemma QuoteMetaSplit(s: string)
    ensures Join(QuoteAll(Split(s, '.')), @"\.") == QuoteMeta(s)
  {
    QuoteMetaJoin(Split(s, '.'));
  }
  /** `strings.Split` gives one more piece than there are separators. */
  lemma {:induction false} SplitCount(s: string, c: char)
    ensures |Split(s, c)| == multiset(s)[c] + 1
    decreases |s|
  {
    var i := IndexOf(s, c);
    if i >= 0 {
      var x, y := s[..i], s[i + 1..];
      SplitCount(y, c);
      assert Split(s, c) == [x] + Split(y, c);
      assert s == x + [c] + y;
      assert c !in x;
      assert multiset(x)[c] == 0;
      assert multiset(s) == multiset(x) + multiset([c]) + multiset(y);
    } else {
      assert Split(s, c) == [s];
      assert c !in s;
      assert multiset(s)[c] == 0;
    }
  }
  /** One more quoted piece on a dot-joined pattern: the step of the loops
      that build `\.`-joined patterns piece by piece. */
  lemma QuoteAllStep(parts: seq<string>, i: nat, sep: string)
    requires i < |parts|
    ensures Join(QuoteAll(parts[..i + 1]), sep) ==
      (if i > 0 then Join(QuoteAll(parts[..i]), sep) + sep else "") + QuoteMeta(parts[i])
  {
    var longer, shorter := QuoteAll(parts[..i + 1]), QuoteAll(parts[..i]) + [QuoteMeta(parts[i])];
    forall j | 0 <= j < |longer| ensures longer[j] == shorter[j] {
      if j < i {
        assert parts[..i + 1][j] == parts[..i][j];
      }
    }
    assert longer == shorter;
    JoinSnoc(QuoteAll(parts[..i]), sep, QuoteMeta(parts[i]));
  }

  lemma AppendAssoc(a: string, b: string, c: string)
    ensures a + (b + c) == a + b + c
  {
  }
  /** A character of a piece is a character of the joined text. */
  lemma {:induction false} JoinHoldsParts(parts: seq<string>, sep: string, i: nat, c: char)
    requires i < |parts|
    ensures c in parts[i] ==> c in Join(parts, sep)
  {
    if |parts| > 1 {
      if i == 0 {
        assert Join(parts, sep) == parts[0] + (sep + Join(parts[1..], sep));
      } else {
        JoinHoldsParts(parts[1..], sep, i - 1, c);
        assert Join(parts, sep) == (parts[0] + sep) + Join(parts[1..], sep);
      }
    }
  }
  /** Joining one more element of a fixed sequence. */
  lemma JoinPrefixStep(rs: seq<string>, i: nat, sep: string)
    requires i < |rs|
    ensures Join(rs[..i + 1], sep) == (if i > 0 then Join(rs[..i], sep) + sep else "") + rs[i]
  {
    JoinSnoc(rs[..i], sep, rs[i]);
    assert rs[..i + 1] == rs[..i] + [rs[i]];
  }

  lemma TakeAll(rs: seq<string>)
    ensures rs[..|rs|] == rs
  {
  }

  /** One pass of a loop that appends the pieces rs with sep between them
      to a text starting with head. */
  lemma JoinedStep(head: string, rs: seq<string>, i: nat, sep: string, mid: string, after: string)
    requires i < |rs|
    requires mid == head + Join(rs[..i], sep) + (if i > 0 then sep else "")
    requires after == mid + rs[i]
    ensures after == head + Join(rs[..i + 1], sep)
  {
    var before := Join(rs[..i], sep);
    JoinPrefixStep(rs, i, sep);
    if i > 0 {
      AppendAssoc(head, before, sep);
      AppendAssoc(head, before + sep, rs[i]);
    } else {
      assert before == "";
      AppendAssoc(head, "", rs[i]);
    }
  }

  /** Text that occurs in s brings its first character with it. */
  lemma ContainsHead(s: string, t: string)
    requires |t| > 0 && Contains(s, t)
    ensures t[0] in s
  {
    var i :| 0 <= i <= |s| - |t| && OccursAt(s, t, i);
    assert s[i] == t[0];
  }
}
