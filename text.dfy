/**
 * The few pieces of Go's `strings` and `fmt` packages that the service relies on, as
 * functions on `string` (a `seq<char>`): `strings.Split` on a one-character separator,
 * characterised through its inverse `Join`, `strings.Repeat`, `strings.TrimRight` with a
 * one-character cutset, and the `%q` rendering of a `[]string`. Each comes with its characterising contract and, for the
 * encodings, a decoder and the round trip.
 */
module Text {
  import opened Wrappers

  /** `n` copies of `x` (`strings.Repeat` when `x` is a character). */
  function Repeat<T>(x: T, n: nat): (r: seq<T>)
    ensures |r| == n
    ensures forall i :: 0 <= i < n ==> r[i] == x
  {
    if n == 0 then [] else [x] + Repeat(x, n - 1)
  }

  lemma {:induction false} RepeatCount<T>(x: T, n: nat)
    ensures multiset(Repeat(x, n)) == multiset{}[x := n]
  {
    if n > 0 {
      RepeatCount(x, n - 1);
      assert Repeat(x, n) == [x] + Repeat(x, n - 1);
    }
  }

  /** A prefix one element longer. */
  lemma TakeSnoc<T>(s: seq<T>, i: nat)
    requires i < |s|
    ensures s[..i + 1] == s[..i] + [s[i]]
  {
  }

  lemma RepeatSucc<T>(x: T, n: nat)
    ensures Repeat(x, n + 1) == Repeat(x, n) + [x]
  {
    assert Repeat(x, n + 1)[..n] == Repeat(x, n);
  }

  function StartsWith(s: string, prefix: string): bool
  {
    |prefix| <= |s| && s[..|prefix|] == prefix
  }

  /** What follows `prefix` in `s`, if `s` starts with it. */
  function Expect(s: string, prefix: string): (r: Option<string>)
    ensures r.Some? ==> s == prefix + r.value
  {
    if StartsWith(s, prefix) then
      assert s == s[..|prefix|] + s[|prefix|..];
      Some(s[|prefix|..])
    else None
  }

  lemma ExpectConcat(prefix: string, t: string)
    ensures Expect(prefix + t, prefix) == Some(t)
  {
    assert (prefix + t)[..|prefix|] == prefix;
    assert (prefix + t)[|prefix|..] == t;
  }

  // ---------------------------------------------------------------------------------------
  // strings.Split on a single-character separator, and Join, its inverse, which pins it down
  // ---------------------------------------------------------------------------------------

  /** The tokens joined with `sep` between them, as `strings.Join(tokens, string(sep))` would. */
  function Join(tokens: seq<string>, sep: char): string
  {
    if |tokens| == 0 then []
    else if |tokens| == 1 then tokens[0]
    else tokens[0] + [sep] + Join(tokens[1..], sep)
  }

  lemma {:induction false} JoinSnoc(tokens: seq<string>, t: string, sep: char)
    requires |tokens| >= 1
    ensures Join(tokens + [t], sep) == Join(tokens, sep) + [sep] + t
  {
    if |tokens| == 1 {
      assert (tokens + [t])[1..] == [t];
    } else {
      assert (tokens + [t])[1..] == tokens[1..] + [t];
      JoinSnoc(tokens[1..], t, sep);
    }
  }

  /** A join ends where its last token ends. */
  lemma {:induction false} JoinEnd(tokens: seq<string>, sep: char)
    requires |tokens| >= 1 && tokens[|tokens| - 1] != []
    ensures Join(tokens, sep) != []
    ensures Join(tokens, sep)[|Join(tokens, sep)| - 1] == tokens[|tokens| - 1][|tokens[|tokens| - 1]| - 1]
    decreases |tokens|
  {
    if |tokens| > 1 {
      JoinEnd(tokens[1..], sep);
    }
  }

  /**
   * `strings.Split(s, string(sep))`: the separators cut `s` into tokens and are dropped;
   * adjacent separators leave empty tokens, and the empty string gives one empty token.
   */
  function Split(s: string, sep: char): (tokens: seq<string>)
    ensures |tokens| >= 1
    ensures forall i :: 0 <= i < |tokens| ==> sep !in tokens[i]
    decreases |s|
  {
    if |s| == 0 then [[]]
    else
      var rest := Split(s[1..], sep);
      if s[0] == sep then [[]] + rest
      else [[s[0]] + rest[0]] + rest[1..]
  }

  /** Joining the tokens of a split gives back the text. */
  lemma {:induction false} JoinSplit(s: string, sep: char)
    ensures Join(Split(s, sep), sep) == s
    decreases |s|
  {
    if |s| != 0 {
      var rest := Split(s[1..], sep);
      JoinSplit(s[1..], sep);
      if s[0] == sep {
        assert Join([[]] + rest, sep) == [sep] + Join(rest, sep);
      } else {
        var tokens := [[s[0]] + rest[0]] + rest[1..];
        assert Join(tokens, sep) == [s[0]] + Join(rest, sep) by {
          if |rest| > 1 {
            assert tokens[1..] == rest[1..];
          }
        }
        assert s == [s[0]] + s[1..];
      }
    }
  }

  lemma {:induction false} SplitToken(x: string, sep: char)
    requires sep !in x
    ensures Split(x, sep) == [x]
    decreases |x|
  {
    if x != [] {
      SplitToken(x[1..], sep);
      assert [x[0]] + x[1..] == x;
    }
  }

  lemma {:induction false} SplitAfterToken(x: string, sep: char, t: string)
    requires sep !in x
    ensures Split(x + [sep] + t, sep) == [x] + Split(t, sep)
    decreases |x|
  {
    var s := x + [sep] + t;
    if x == [] {
      assert s[1..] == t;
    } else {
      assert s[1..] == x[1..] + [sep] + t;
      SplitAfterToken(x[1..], sep, t);
      assert [x[0]] + x[1..] == x;
    }
  }

  /** Splitting undoes joining, as long as no token holds the separator. */
  lemma {:induction false} SplitJoin(tokens: seq<string>, sep: char)
    requires |tokens| >= 1
    requires forall i :: 0 <= i < |tokens| ==> sep !in tokens[i]
    ensures Split(Join(tokens, sep), sep) == tokens
  {
    if |tokens| == 1 {
      SplitToken(tokens[0], sep);
    } else {
      SplitJoin(tokens[1..], sep);
      SplitAfterToken(tokens[0], sep, Join(tokens[1..], sep));
      assert [tokens[0]] + tokens[1..] == tokens;
    }
  }

  // ---------------------------------------------------------------------------------------
  // strings.TrimRight with a one-character cutset
  // ---------------------------------------------------------------------------------------

  /** `strings.TrimRight(s, string(c))`: drop every trailing `c`. */
  function TrimRight(s: string, c: char): (r: string)
    ensures |r| <= |s| && r == s[..|r|]
    ensures r == [] || r[|r| - 1] != c
    ensures forall i :: |r| <= i < |s| ==> s[i] == c
  {
    if |s| != 0 && s[|s| - 1] == c then TrimRight(s[..|s| - 1], c) else s
  }

  lemma TrimRightOne(s: string, c: char)
    requires s != [] && s[|s| - 1] != c
    ensures TrimRight(s + [c], c) == s
  {
    assert (s + [c])[..|s|] == s;
  }

  // ---------------------------------------------------------------------------------------
  // fmt's %q verb applied to a []string, for strings that need no escaping
  // ---------------------------------------------------------------------------------------

  /** Go's %q of one string, for printable strings holding no quote or backslash (which %q leaves unescaped). */
  function Quote(x: string): string
  {
    ['"'] + x + ['"']
  }

  function QuotedItems(xs: seq<string>): string
  {
    if |xs| == 0 then []
    else if |xs| == 1 then Quote(xs[0])
    else Quote(xs[0]) + [' '] + QuotedItems(xs[1..])
  }

  /** Go's %q of a []string: `[]` when empty, otherwise `["a" "b"]`. */
  function QuoteList(xs: seq<string>): (r: string)
    ensures |r| >= 2 && r[0] == '[' && r[|r| - 1] == ']'
    ensures |xs| == 0 <==> |r| == 2
    ensures |xs| > 0 ==> r[1] == '"'
  {
    ['['] + QuotedItems(xs) + [']']
  }

  /** Reads up to the first `stop`; gives what came before it and what follows it. */
  function ReadUntil(s: string, stop: char): (r: Option<(string, string)>)
    ensures r.Some? ==> |r.value.1| < |s|
    ensures r.Some? ==> stop !in r.value.0 && s == r.value.0 + [stop] + r.value.1
    ensures r.None? ==> stop !in s
  {
    if |s| == 0 then None
    else if s[0] == stop then Some(([], s[1..]))
    else match ReadUntil(s[1..], stop)
      case None => None
      case Some(p) => Some(([s[0]] + p.0, p.1))
  }

  lemma {:induction false} ReadUntilToken(x: string, stop: char, t: string)
    requires stop !in x
    ensures ReadUntil(x + [stop] + t, stop) == Some((x, t))
    decreases |x|
  {
    var s := x + [stop] + t;
    if x == [] {
      assert s[1..] == t;
    } else {
      assert s[1..] == x[1..] + [stop] + t;
      ReadUntilToken(x[1..], stop, t);
      assert [x[0]] + x[1..] == x;
    }
  }

  /** Reads `"a" "b"]` (at least one item) and gives the items and the text after `]`. */
  function ReadItems(s: string): (r: Option<(seq<string>, string)>)
    ensures r.Some? ==> |r.value.1| < |s|
    decreases |s|
  {
    if |s| == 0 || s[0] != '"' then None
    else match ReadUntil(s[1..], '"')
      case None => None
      case Some((x, rest)) =>
        if rest != [] && rest[0] == ']' then Some(([x], rest[1..]))
        else if rest != [] && rest[0] == ' ' then
          match ReadItems(rest[1..])
          case None => None
          case Some((xs, after)) => Some(([x] + xs, after))
        else None
  }

  /** Reads a %q-rendered list at the start of `s`; gives the list and the text after it. */
  function ReadList(s: string): (r: Option<(seq<string>, string)>)
    ensures r.Some? ==> |r.value.1| < |s|
  {
    if |s| == 0 || s[0] != '[' then None
    else if |s| >= 2 && s[1] == ']' then Some(([], s[2..]))
    else ReadItems(s[1..])
  }

  lemma ReadItemsLast(x: string, t: string)
    requires '"' !in x
    ensures ReadItems(Quote(x) + [']'] + t) == Some(([x], t))
  {
    var s := Quote(x) + [']'] + t;
    assert s[1..] == x + ['"'] + ([']'] + t);
    ReadUntilToken(x, '"', [']'] + t);
    assert ([']'] + t)[1..] == t;
  }

  lemma ReadItemsNext(x: string, tail: string)
    requires '"' !in x
    ensures ReadItems(Quote(x) + [' '] + tail) ==
      match ReadItems(tail)
      case None => None
      case Some((xs, after)) => Some(([x] + xs, after))
  {
    var s := Quote(x) + [' '] + tail;
    assert s[1..] == x + ['"'] + ([' '] + tail);
    ReadUntilToken(x, '"', [' '] + tail);
    assert ([' '] + tail)[1..] == tail;
  }

  lemma {:induction false} ReadItemsQuoted(xs: seq<string>, t: string)
    requires |xs| >= 1
    requires forall i :: 0 <= i < |xs| ==> '"' !in xs[i]
    ensures ReadItems(QuotedItems(xs) + [']'] + t) == Some((xs, t))
  {
    if |xs| == 1 {
      ReadItemsLast(xs[0], t);
      assert [xs[0]] == xs;
    } else {
      var tail := QuotedItems(xs[1..]) + [']'] + t;
      assert QuotedItems(xs) + [']'] + t == Quote(xs[0]) + [' '] + tail;
      ReadItemsNext(xs[0], tail);
      ReadItemsQuoted(xs[1..], t);
      assert [xs[0]] + xs[1..] == xs;
    }
  }

  /** The %q rendering of a list of quote-free strings can be read back. */
  lemma ReadQuoteList(xs: seq<string>, t: string)
    requires forall i :: 0 <= i < |xs| ==> '"' !in xs[i]
    ensures ReadList(QuoteList(xs) + t) == Some((xs, t))
  {
    var s := QuoteList(xs) + t;
    if xs == [] {
      assert s == "[]" + t;
      assert s[2..] == t;
    } else {
      assert s[1] == '"';
      assert s[1..] == QuotedItems(xs) + [']'] + t;
      ReadItemsQuoted(xs, t);
    }
  }
}
