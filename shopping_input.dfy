/** akash.py:115: the text box is split at every comma and each piece is
    stripped of surrounding whitespace, as Python's `str.split(",")` and
    `str.strip()` do. */
module ShoppingInput {

  const Comma: char := ','

  /** The characters `str.strip()` removes: those Python's `str.isspace`
      accepts. */
  predicate IsSpace(c: char) {
    || ('\t' <= c <= '\r')
    || ('\U{001C}' <= c <= '\U{001F}')
    || c == ' ' || c == '\U{0085}' || c == '\U{00A0}' || c == '\U{1680}'
    || ('\U{2000}' <= c <= '\U{200A}')
    || c == '\U{2028}' || c == '\U{2029}' || c == '\U{202F}' || c == '\U{205F}' || c == '\U{3000}'
  }

  /** Number of occurrences of `c` in `s`. */
  function Count(s: string, c: char): nat {
    if |s| == 0 then 0 else (if s[0] == c then 1 else 0) + Count(s[1..], c)
  }

  /** `s.split(sep)` for a one-character separator: the pieces between
      consecutive separators, empty pieces included. */
  function Split(s: string, sep: char): (r: seq<string>)
    ensures |r| >= 1
  {
    if |s| == 0 then [""]
    else
      var rest := Split(s[1..], sep);
      if s[0] == sep then [""] + rest
      else [[s[0]] + rest[0]] + rest[1..]
  }

  /** `sep.join(pieces)`. */
  function Join(pieces: seq<string>, sep: char): string
    requires |pieces| >= 1
  {
    if |pieces| == 1 then pieces[0] else pieces[0] + [sep] + Join(pieces[1..], sep)
  }

  /** Splitting yields one piece more than there are separators. */
  lemma {:induction false} SplitCount(s: string, sep: char)
    ensures |Split(s, sep)| == Count(s, sep) + 1
  {
    if |s| > 0 {
      SplitCount(s[1..], sep);
    }
  }

  /** Text with no separator is a single piece. */
  lemma {:induction false} SplitWithoutSeparator(s: string, sep: char)
    requires sep !in s
    ensures Split(s, sep) == [s]
  {
    if |s| > 0 {
      assert sep !in s[1..];
      SplitWithoutSeparator(s[1..], sep);
      assert [s[0]] + s[1..] == s;
    }
  }

  /** No piece contains the separator. */
  lemma {:induction false} SplitPiecesFree(s: string, sep: char)
    ensures forall i | 0 <= i < |Split(s, sep)| :: sep !in Split(s, sep)[i]
  {
    if |s| > 0 {
      SplitPiecesFree(s[1..], sep);
      var rest := Split(s[1..], sep);
      if s[0] != sep {
        assert sep !in [s[0]] + rest[0];
        forall i | 0 <= i < |Split(s, sep)| ensures sep !in Split(s, sep)[i] {
          if i > 0 {
            assert Split(s, sep)[i] == rest[i];
          }
        }
      }
    }
  }

  /** Joining the pieces with the separator gives back the input. */
  lemma {:induction false} SplitJoin(s: string, sep: char)
    ensures Join(Split(s, sep), sep) == s
  {
    if |s| > 0 {
      SplitJoin(s[1..], sep);
      var rest := Split(s[1..], sep);
      if s[0] == sep {
        assert ([""] + rest)[1..] == rest;
        assert s == [sep] + s[1..];
      } else {
        var r := [[s[0]] + rest[0]] + rest[1..];
        if |rest| == 1 {
          assert s == [s[0]] + rest[0];
        } else {
          assert r[1..] == rest[1..];
          assert Join(rest, sep) == rest[0] + [sep] + Join(rest[1..], sep);
          assert s == [s[0]] + s[1..];
        }
      }
    }
  }

  /** `s.lstrip()`. */
  function TrimStart(s: string): string {
    if |s| > 0 && IsSpace(s[0]) then TrimStart(s[1..]) else s
  }

  /** `s.rstrip()`. */
  function TrimEnd(s: string): string {
    if |s| > 0 && IsSpace(s[|s| - 1]) then TrimEnd(s[..|s| - 1]) else s
  }

  /** `s.strip()`. */
  function Strip(s: string): (r: string)
    ensures |r| <= |s|
    ensures |r| > 0 ==> !IsSpace(r[0]) && !IsSpace(r[|r| - 1])
  {
    var t := TrimStart(s);
    TrimStartSuffix(s);
    TrimEndPrefix(t);
    assert |TrimEnd(t)| > 0 ==> TrimEnd(t)[0] == t[0];
    TrimEnd(t)
  }

  /** Dropping leading whitespace leaves a suffix of the input that does not
      start with whitespace, and all that was dropped is whitespace. */
  lemma {:induction false} TrimStartSuffix(s: string)
    ensures |TrimStart(s)| <= |s| && TrimStart(s) == s[|s| - |TrimStart(s)|..]
    ensures forall k | 0 <= k < |s| - |TrimStart(s)| :: IsSpace(s[k])
    ensures |TrimStart(s)| > 0 ==> !IsSpace(TrimStart(s)[0])
  {
    if |s| > 0 && IsSpace(s[0]) {
      TrimStartSuffix(s[1..]);
      assert s[1..][|s| - 1 - |TrimStart(s)|..] == s[|s| - |TrimStart(s)|..];
      forall k | 0 <= k < |s| - |TrimStart(s)| ensures IsSpace(s[k]) {
        if k > 0 {
          assert s[k] == s[1..][k - 1];
        }
      }
    }
  }

  /** Dropping trailing whitespace leaves a prefix of the input that does not
      end with whitespace, and all that was dropped is whitespace. */
  lemma {:induction false} TrimEndPrefix(s: string)
    ensures |TrimEnd(s)| <= |s| && TrimEnd(s) == s[..|TrimEnd(s)|]
    ensures forall k | |TrimEnd(s)| <= k < |s| :: IsSpace(s[k])
    ensures |TrimEnd(s)| > 0 ==> !IsSpace(TrimEnd(s)[|TrimEnd(s)| - 1])
  {
    if |s| > 0 && IsSpace(s[|s| - 1]) {
      var pre := s[..|s| - 1];
      TrimEndPrefix(pre);
      assert pre[..|TrimEnd(s)|] == s[..|TrimEnd(s)|];
      forall k | |TrimEnd(s)| <= k < |s| ensures IsSpace(s[k]) {
        if k < |s| - 1 {
          assert s[k] == pre[k];
        }
      }
    }
  }

  /** A stripped piece is the infix of the input left after removing all the
      whitespace at both ends: it neither starts nor ends with whitespace,
      and everything removed is whitespace. */
  lemma StripInfix(s: string)
    ensures exists i, j | 0 <= i <= j <= |s| ::
      && Strip(s) == s[i..j]
      && (forall k | 0 <= k < i :: IsSpace(s[k]))
      && (forall k | j <= k < |s| :: IsSpace(s[k]))
    ensures |Strip(s)| > 0 ==> !IsSpace(Strip(s)[0]) && !IsSpace(Strip(s)[|Strip(s)| - 1])
  {
    var t := TrimStart(s);
    var i := |s| - |t|;
    TrimStartSuffix(s);
    TrimEndPrefix(t);
    var j := i + |TrimEnd(t)|;
    assert Strip(s) == s[i..j];
    forall k | j <= k < |s| ensures IsSpace(s[k]) {
      assert s[k] == t[k - i];
    }
    InfixBetweenSpaces(s, i, j, Strip(s));
  }

  /** The witness step of StripInfix. */
  lemma InfixBetweenSpaces(s: string, i: nat, j: nat, r: string)
    requires i <= j <= |s| && r == s[i..j]
    requires forall k | 0 <= k < i :: IsSpace(s[k])
    requires forall k | j <= k < |s| :: IsSpace(s[k])
    ensures exists i, j | 0 <= i <= j <= |s| ::
      && r == s[i..j]
      && (forall k | 0 <= k < i :: IsSpace(s[k]))
      && (forall k | j <= k < |s| :: IsSpace(s[k]))
  {
  }

  /** Stripping twice changes nothing more. */
  lemma StripIdempotent(s: string)
    ensures Strip(Strip(s)) == Strip(s)
  {
    StripInfix(s);
    var t := Strip(s);
    if |t| > 0 {
      assert TrimStart(t) == t;
      assert TrimEnd(t) == t;
    }
  }

  /** The `shopping_list` comprehension of akash.py:115. */
  function ParseShoppingList(input: string): (r: seq<string>)
    ensures |r| == |Split(input, Comma)| == Count(input, Comma) + 1
    ensures forall i | 0 <= i < |r| :: r[i] == Strip(Split(input, Comma)[i])
  {
    var pieces := Split(input, Comma);
    SplitCount(input, Comma);
    seq(|pieces|, i requires 0 <= i < |pieces| => Strip(pieces[i]))
  }

  /** The list has one entry per comma plus one; each entry is the stripped
      piece between consecutive commas, contains no comma, and neither
      starts nor ends with whitespace. */
  lemma ParseShoppingListItems(input: string)
    ensures |ParseShoppingList(input)| == Count(input, Comma) + 1
    ensures forall i | 0 <= i < |ParseShoppingList(input)| ::
      && ParseShoppingList(input)[i] == Strip(Split(input, Comma)[i])
      && Comma !in ParseShoppingList(input)[i]
      && (|ParseShoppingList(input)[i]| > 0 ==>
            !IsSpace(ParseShoppingList(input)[i][0]) &&
            !IsSpace(ParseShoppingList(input)[i][|ParseShoppingList(input)[i]| - 1]))
    ensures Join(Split(input, Comma), Comma) == input
  {
    var pieces := Split(input, Comma);
    SplitCount(input, Comma);
    SplitPiecesFree(input, Comma);
    SplitJoin(input, Comma);
    forall i | 0 <= i < |pieces|
      ensures Comma !in Strip(pieces[i])
      ensures |Strip(pieces[i])| > 0 ==>
                !IsSpace(Strip(pieces[i])[0]) && !IsSpace(Strip(pieces[i])[|Strip(pieces[i])| - 1])
    {
      StripInfix(pieces[i]);
      StripKeepsOut(pieces[i], Comma);
    }
  }

  /** Stripping never brings in a character that was not there. */
  lemma StripKeepsOut(s: string, c: char)
    requires c !in s
    ensures c !in Strip(s)
  {
    StripInfix(s);
    var a, b :| 0 <= a <= b <= |s| && Strip(s) == s[a..b];
    forall k | 0 <= k < b - a ensures Strip(s)[k] != c {
      assert Strip(s)[k] == s[a + k];
    }
  }

  /** The text box's default value gives a one-item list. */
  lemma DefaultInput()
    ensures ParseShoppingList("Pasta") == ["Pasta"]
  {
    SplitWithoutSeparator("Pasta", Comma);
    assert TrimStart("Pasta") == "Pasta";
    assert TrimEnd("Pasta") == "Pasta";
  }

  /** An empty text box gives one empty item, as `"".split(",")` does. */
  lemma EmptyInput()
    ensures ParseShoppingList("") == [""]
  {
  }
}
