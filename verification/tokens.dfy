/** The two tokenisers and the joiner that the transformer applies to the
    text of an alternative: .NET's `s.Split(' ')`, which keeps the empty
    fragments between adjacent spaces, `s.Split(' ', RemoveEmptyEntries)`,
    which drops them, and `string.Join(' ', parts)`. */
module Tokens {

  const Space: char := ' '

  /** `s.Split(' ')`: the space-free fragments of `s`, empty ones kept. There
      is always at least one (see `SplitShape` for the exact count). */
  function Split(s: string): (r: seq<string>)
    ensures |r| >= 1
  {
    if s == [] then [""]
    else
      var rest := Split(s[1..]);
      if s[0] == Space then [""] + rest
      else [[s[0]] + rest[0]] + rest[1..]
  }

  /** `string.Join(' ', parts)`. */
  function Join(parts: seq<string>): string
  {
    if parts == [] then ""
    else if |parts| == 1 then parts[0]
    else parts[0] + [Space] + Join(parts[1..])
  }

  /** The fragments that are not empty, in order. */
  function NonEmpty(parts: seq<string>): seq<string>
  {
    if parts == [] then []
    else (if parts[0] == "" then [] else [parts[0]]) + NonEmpty(parts[1..])
  }

  /** `s.Split(' ', StringSplitOptions.RemoveEmptyEntries)`: the words of `s`. */
  function Words(s: string): seq<string>
  {
    NonEmpty(Split(s))
  }

  /** `s.Split(' ')[0]`: everything before the first space (all of `s` if it has none). */
  function FirstToken(s: string): string
  {
    Split(s)[0]
  }

  /** `string.Join(' ', s.Split(' ').Skip(1))`: everything after the first space. */
  function Remainder(s: string): string
  {
    Join(Split(s)[1..])
  }

  /** A string with no word: empty or made of spaces only. */
  predicate Blank(s: string)
  {
    forall i :: 0 <= i < |s| ==> s[i] == Space
  }

  /** There is exactly one fragment more than there are spaces, and no
      fragment holds a space. */
  lemma {:induction false} SplitShape(s: string)
    ensures |Split(s)| == multiset(s)[Space] + 1
    ensures forall i :: 0 <= i < |Split(s)| ==> Space !in Split(s)[i]
  {
    if s != [] {
      SplitShape(s[1..]);
      assert s == [s[0]] + s[1..];
    }
  }

  lemma {:induction false} NonEmptyShape(parts: seq<string>)
    ensures forall i :: 0 <= i < |NonEmpty(parts)| ==> NonEmpty(parts)[i] != "" && NonEmpty(parts)[i] in parts
  {
    if parts != [] {
      NonEmptyShape(parts[1..]);
    }
  }

  /** Every word is non-empty and free of spaces. */
  lemma WordsShape(s: string)
    ensures forall i :: 0 <= i < |Words(s)| ==> Words(s)[i] != "" && Space !in Words(s)[i]
  {
    SplitShape(s);
    NonEmptyShape(Split(s));
  }

  /** Joining the fragments of `s` with single spaces gives `s` back. */
  lemma {:induction false} JoinSplit(s: string)
    ensures Join(Split(s)) == s
  {
    if s != [] {
      var rest := Split(s[1..]);
      JoinSplit(s[1..]);
      if s[0] != Space && |rest| > 1 {
        assert rest == [rest[0]] + rest[1..];
      }
    }
  }

  /** Splitting the single-space join of space-free fragments gives the fragments back. */
  lemma {:induction false} SplitJoin(parts: seq<string>)
    requires parts != []
    requires forall i :: 0 <= i < |parts| ==> Space !in parts[i]
    ensures Split(Join(parts)) == parts
  {
    SplitNoSpace(parts[0]);
    if |parts| > 1 {
      SplitJoin(parts[1..]);
      SplitConcat(parts[0], Join(parts[1..]));
      assert parts == [parts[0]] + parts[1..];
    }
  }

  /** A space-free string is a single fragment. */
  lemma {:induction false} SplitNoSpace(s: string)
    requires Space !in s
    ensures Split(s) == [s]
  {
    if s != [] {
      assert s == [s[0]] + s[1..];
      SplitNoSpace(s[1..]);
    }
  }

  /** Gluing a character onto the first fragment commutes with appending
      further fragments. */
  lemma GlueHead(x: char, r: seq<string>, t: seq<string>)
    requires |r| >= 1
    ensures [[x] + (r + t)[0]] + (r + t)[1..] == ([[x] + r[0]] + r[1..]) + t
  {
    assert (r + t)[0] == r[0] && (r + t)[1..] == r[1..] + t;
  }

  /** A space separates the fragments on its two sides. */
  lemma {:induction false} SplitConcat(a: string, c: string)
    ensures Split(a + [Space] + c) == Split(a) + Split(c)
  {
    var s := a + [Space] + c;
    if a == [] {
      assert s[0] == Space && s[1..] == c;
    } else {
      assert s[0] == a[0] && s[1..] == a[1..] + [Space] + c;
      SplitConcat(a[1..], c);
      if a[0] != Space {
        GlueHead(a[0], Split(a[1..]), Split(c));
      }
    }
  }

  lemma {:induction false} NonEmptyConcat(p: seq<string>, q: seq<string>)
    ensures NonEmpty(p + q) == NonEmpty(p) + NonEmpty(q)
  {
    if p != [] {
      var head := if p[0] == "" then [] else [p[0]];
      assert (p + q)[0] == p[0] && (p + q)[1..] == p[1..] + q;
      assert NonEmpty(p + q) == head + NonEmpty(p[1..] + q);
      NonEmptyConcat(p[1..], q);
      assert NonEmpty(p) == head + NonEmpty(p[1..]);
    } else {
      assert p + q == q;
    }
  }

  /** The words of `a + " " + c` are the words of `a` followed by those of `c`. */
  lemma WordsConcat(a: string, c: string)
    ensures Words(a + [Space] + c) == Words(a) + Words(c)
  {
    SplitConcat(a, c);
    NonEmptyConcat(Split(a), Split(c));
  }

  /** A non-empty space-free string is a single word. */
  lemma WordsOfWord(s: string)
    requires s != [] && Space !in s
    ensures Words(s) == [s]
  {
    SplitNoSpace(s);
    assert NonEmpty([s]) == [s] + NonEmpty([s][1..]);
    assert [s][1..] == [];
  }

  /** Fragments that are all non-empty are kept as they are. */
  lemma {:induction false} NonEmptyAll(parts: seq<string>)
    requires forall i :: 0 <= i < |parts| ==> parts[i] != ""
    ensures NonEmpty(parts) == parts
  {
    if parts != [] {
      NonEmptyAll(parts[1..]);
      assert parts == [parts[0]] + parts[1..];
    }
  }

  /** Joining words with single spaces and splitting them again with
      `RemoveEmptyEntries` gives the words back. */
  lemma WordsJoin(ws: seq<string>)
    requires forall i :: 0 <= i < |ws| ==> ws[i] != "" && Space !in ws[i]
    ensures Words(Join(ws)) == ws
  {
    if ws == [] {
      assert Words("") == NonEmpty([""]);
      assert NonEmpty([""]) == [] + NonEmpty([""][1..]);
    } else {
      SplitJoin(ws);
      NonEmptyAll(ws);
    }
  }

  /** `symbols[0]` after `Split(' ', RemoveEmptyEntries)` fails exactly on blank text. */
  lemma {:induction false} WordsEmptyIffBlank(s: string)
    ensures Words(s) == [] <==> Blank(s)
  {
    if s != [] {
      var rest := Split(s[1..]);
      WordsEmptyIffBlank(s[1..]);
      assert Blank(s) <==> s[0] == Space && Blank(s[1..]);
      if s[0] != Space {
        assert Split(s)[0] != "";
      } else {
        assert Words(s) == NonEmpty([""] + rest);
      }
    }
  }

  /** The first token and the remainder put back together, joined by the
      first space, give the alternative; without a space the first token is
      the whole alternative and the remainder is empty. */
  lemma Reassemble(s: string)
    ensures Space in s ==> s == FirstToken(s) + [Space] + Remainder(s)
    ensures Space !in s ==> FirstToken(s) == s && Remainder(s) == ""
  {
    JoinSplit(s);
    SplitShape(s);
    var parts := Split(s);
    if Space in s {
      assert multiset(s)[Space] > 0;
      assert |parts| > 1;
    } else {
      assert multiset(s)[Space] == 0;
      assert |parts| == 1;
    }
  }

  /** The first token is empty exactly when the alternative is empty or starts with a space. */
  lemma FirstTokenEmpty(s: string)
    ensures FirstToken(s) == "" <==> s == [] || s[0] == Space
  {
  }
}
