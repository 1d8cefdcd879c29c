/**
 * The text-level part of `readTree`: removal of space-then-tab pairs, the split of the
 * Newick text on the delimiters `;`, `(`, `)`, `,` (keeping each delimiter as a token of its
 * own, as a JavaScript `split` with a capturing group does), and the split of a node-info
 * token on `:`.
 */
module Tokenizer {

  predicate IsDelimiter(c: char)
  {
    c == ';' || c == '(' || c == ')' || c == ','
  }

  /** Number of occurrences of `c` in `s`. */
  function Occurrences(s: string, c: char): nat
  {
    if s == [] then 0 else (if s[0] == c then 1 else 0) + Occurrences(s[1..], c)
  }

  function DelimiterCount(s: string): nat
  {
    if s == [] then 0 else (if IsDelimiter(s[0]) then 1 else 0) + DelimiterCount(s[1..])
  }

  /** The concatenation of a list of strings. */
  function Concat(ss: seq<string>): string
  {
    if ss == [] then "" else ss[0] + Concat(ss[1..])
  }

  /** The strings of `ss` joined with `sep` between consecutive ones. */
  function Join(ss: seq<string>, sep: char): string
  {
    if ss == [] then "" else if |ss| == 1 then ss[0] else ss[0] + [sep] + Join(ss[1..], sep)
  }

  /** The text with spaces and tabs dropped: what a general whitespace strip would leave. */
  function DropBlanks(s: string): string
  {
    if s == [] then "" else (if s[0] == ' ' || s[0] == '\t' then "" else [s[0]]) + DropBlanks(s[1..])
  }

  predicate HasSpaceTab(s: string)
  {
    exists k :: 0 <= k < |s| - 1 && s[k] == ' ' && s[k + 1] == '\t'
  }

  /**
   * `text.replace(/ \t/g, '')`: one left-to-right pass that deletes every (non-overlapping)
   * space immediately followed by a tab, and nothing else.
   */
  function StripSpaceTab(s: string): (r: string)
    ensures |r| <= |s|
  {
    if |s| >= 2 && s[0] == ' ' && s[1] == '\t' then StripSpaceTab(s[2..])
    else if s == [] then ""
    else [s[0]] + StripSpaceTab(s[1..])
  }

  /**
   * `text.split(/(;|\(|\)|,)/)`: the text between delimiters (possibly empty) alternating with
   * the delimiters themselves, so the result always has an odd number of pieces.
   */
  function Tokenize(s: string): (r: seq<string>)
    ensures |r| == 2 * DelimiterCount(s) + 1
  {
    if s == [] then [""]
    else
      var rest := Tokenize(s[1..]);
      if IsDelimiter(s[0]) then ["", [s[0]]] + rest
      else [[s[0]] + rest[0]] + rest[1..]
  }

  /** `token.split(sep)` for a one-character separator: one more piece than separators. */
  function Fields(s: string, sep: char): (r: seq<string>)
    ensures |r| == Occurrences(s, sep) + 1
  {
    if s == [] then [""]
    else
      var rest := Fields(s[1..], sep);
      if s[0] == sep then [""] + rest
      else [[s[0]] + rest[0]] + rest[1..]
  }

  // ---------------------------------------------------------------------------------------
  // Stripping

  /** Stripping removes only spaces and tabs: once all blanks are dropped, nothing differs. */
  lemma {:induction false} StripKeepsNonBlanks(s: string)
    ensures DropBlanks(StripSpaceTab(s)) == DropBlanks(s)
  {
    if |s| >= 2 && s[0] == ' ' && s[1] == '\t' {
      StripKeepsNonBlanks(s[2..]);
      assert DropBlanks(s) == DropBlanks(s[1..]);
      assert s[1..][1..] == s[2..];
    } else if s != [] {
      StripKeepsNonBlanks(s[1..]);
      assert ([s[0]] + StripSpaceTab(s[1..]))[1..] == StripSpaceTab(s[1..]);
    }
  }

  /** Characters are removed in pairs. */
  lemma {:induction false} StripRemovesPairs(s: string)
    ensures (|s| - |StripSpaceTab(s)|) % 2 == 0
  {
    if |s| >= 2 && s[0] == ' ' && s[1] == '\t' {
      StripRemovesPairs(s[2..]);
    } else if s != [] {
      StripRemovesPairs(s[1..]);
    }
  }

  /** A text without any space-then-tab pair is left as it is. */
  lemma {:induction false} StripIdentity(s: string)
    requires !HasSpaceTab(s)
    ensures StripSpaceTab(s) == s
  {
    if s != [] {
      assert |s| >= 2 ==> !(s[0] == ' ' && s[1] == '\t');
      assert !HasSpaceTab(s[1..]) by {
        forall k | 0 <= k < |s| - 2
          ensures !(s[1..][k] == ' ' && s[1..][k + 1] == '\t')
        {
          assert s[1..][k] == s[k + 1] && s[1..][k + 1] == s[k + 2];
        }
      }
      StripIdentity(s[1..]);
    }
  }

  /** In particular a text without spaces is left as it is. */
  lemma StripWithoutSpaces(s: string)
    requires ' ' !in s
    ensures StripSpaceTab(s) == s
  {
    forall k | 0 <= k < |s| - 1
      ensures s[k] != ' '
    {
    }
    StripIdentity(s);
  }

  /** The pass is single: two spaces then two tabs leave one space-then-tab pair behind. */
  lemma StripIsSinglePass()
    ensures StripSpaceTab("  \t\t") == " \t"
  {
    assert StripSpaceTab("\t") == "\t";
    assert StripSpaceTab(" \t\t") == "\t";
  }

  /** Only a space immediately followed by a tab is touched: `", B"` keeps its space. */
  lemma StripKeepsLoneSpace()
    ensures StripSpaceTab(", B") == ", B"
  {
    assert StripSpaceTab("B") == "B";
    assert StripSpaceTab(" B") == " B";
  }

  // ---------------------------------------------------------------------------------------
  // Splitting on delimiters

  /** Concatenating the pieces gives back the text. */
  lemma {:induction false} TokenizeConcat(s: string)
    ensures Concat(Tokenize(s)) == s
  {
    if s != [] {
      var rest := Tokenize(s[1..]);
      TokenizeConcat(s[1..]);
      if IsDelimiter(s[0]) {
        assert Tokenize(s) == ["", [s[0]]] + rest;
        assert (["", [s[0]]] + rest)[1..] == [[s[0]]] + rest;
        assert ([[s[0]]] + rest)[1..] == rest;
      } else {
        assert Tokenize(s) == [[s[0]] + rest[0]] + rest[1..];
        assert Concat(rest) == rest[0] + Concat(rest[1..]);
        assert ([[s[0]] + rest[0]] + rest[1..])[1..] == rest[1..];
      }
    }
  }

  predicate NoDelimiter(w: string)
  {
    forall m :: 0 <= m < |w| ==> !IsDelimiter(w[m])
  }

  /** A delimiter-free word followed by a delimiter becomes two pieces, and the rest splits alone. */
  lemma {:induction false} TokenizeWord(w: string, d: char, s: string)
    requires NoDelimiter(w) && IsDelimiter(d)
    ensures Tokenize(w + [d] + s) == [w, [d]] + Tokenize(s)
  {
    if w == [] {
      assert w + [d] + s == [d] + s;
      assert ([d] + s)[1..] == s;
    } else {
      var t := w + [d] + s;
      assert t[0] == w[0] && t[1..] == w[1..] + [d] + s;
      TokenizeWord(w[1..], d, s);
      var rest := Tokenize(t[1..]);
      assert rest == [w[1..], [d]] + Tokenize(s);
      assert [t[0]] + rest[0] == w;
      assert Tokenize(t) == [[t[0]] + rest[0]] + rest[1..];
    }
  }

  /** A text without delimiters is a single piece, itself. */
  lemma {:induction false} TokenizeNoDelimiter(w: string)
    requires NoDelimiter(w)
    ensures Tokenize(w) == [w]
  {
    if w != [] {
      assert NoDelimiter(w[1..]) by {
        forall m | 0 <= m < |w[1..]| ensures !IsDelimiter(w[1..][m]) {
          assert w[1..][m] == w[m + 1];
        }
      }
      TokenizeNoDelimiter(w[1..]);
      assert [w[0]] + w[1..] == w;
    }
  }

  /** Pieces at odd positions are single delimiters; pieces at even positions contain none. */
  lemma {:induction false} TokenizeShape(s: string)
    ensures forall k :: 0 <= k < |Tokenize(s)| && k % 2 == 1 ==>
              |Tokenize(s)[k]| == 1 && IsDelimiter(Tokenize(s)[k][0])
    ensures forall k, m :: 0 <= k < |Tokenize(s)| && k % 2 == 0 && 0 <= m < |Tokenize(s)[k]| ==>
              !IsDelimiter(Tokenize(s)[k][m])
  {
    if s != [] {
      TokenizeShape(s[1..]);
      var rest := Tokenize(s[1..]);
      var r := Tokenize(s);
      if IsDelimiter(s[0]) {
        assert r == ["", [s[0]]] + rest;
        assert forall k :: 2 <= k < |r| ==> r[k] == rest[k - 2];
      } else {
        assert r == [[s[0]] + rest[0]] + rest[1..];
        assert forall k :: 1 <= k < |r| ==> r[k] == rest[k];
        assert forall m :: 1 <= m < |r[0]| ==> r[0][m] == rest[0][m - 1];
      }
    }
  }

  // ---------------------------------------------------------------------------------------
  // Splitting on ':'

  /** Joining the pieces with the separator gives back the text. */
  lemma {:induction false} FieldsJoin(s: string, sep: char)
    ensures Join(Fields(s, sep), sep) == s
  {
    if s != [] {
      var rest := Fields(s[1..], sep);
      FieldsJoin(s[1..], sep);
      if s[0] == sep {
        assert Fields(s, sep) == [""] + rest;
        assert ([""] + rest)[1..] == rest;
      } else {
        assert Fields(s, sep) == [[s[0]] + rest[0]] + rest[1..];
        assert ([[s[0]] + rest[0]] + rest[1..])[1..] == rest[1..];
      }
    }
  }

  /** No piece contains the separator. */
  lemma {:induction false} FieldsAvoidSeparator(s: string, sep: char)
    ensures forall k, m :: 0 <= k < |Fields(s, sep)| && 0 <= m < |Fields(s, sep)[k]| ==>
              Fields(s, sep)[k][m] != sep
  {
    if s != [] {
      FieldsAvoidSeparator(s[1..], sep);
      var rest := Fields(s[1..], sep);
      var r := Fields(s, sep);
      if s[0] == sep {
        assert forall k :: 1 <= k < |r| ==> r[k] == rest[k - 1];
      } else {
        assert forall k :: 1 <= k < |r| ==> r[k] == rest[k];
        assert forall m :: 1 <= m < |r[0]| ==> r[0][m] == rest[0][m - 1];
      }
    }
  }

  lemma {:induction false} OccurrencesAt(s: string, c: char, k: nat)
    requires k < |s| && s[k] == c
    ensures Occurrences(s, c) >= 1
  {
    if k > 0 {
      OccurrencesAt(s[1..], c, k - 1);
    }
  }

  /** A text without the separator is a single piece, itself. */
  lemma {:induction false} FieldsNoSeparator(s: string, sep: char)
    requires Occurrences(s, sep) == 0
    ensures Fields(s, sep) == [s]
  {
    if s != [] {
      FieldsNoSeparator(s[1..], sep);
      assert [s[0]] + s[1..] == s;
    }
  }

  /** With exactly one separator, at index `c`, the pieces are the text before and after it. */
  lemma {:induction false} FieldsOneSeparator(s: string, sep: char, c: nat)
    requires Occurrences(s, sep) == 1 && c < |s| && s[c] == sep
    ensures Fields(s, sep) == [s[..c], s[c + 1..]]
  {
    if c == 0 {
      FieldsNoSeparator(s[1..], sep);
    } else {
      assert s[1..][c - 1] == sep;
      OccurrencesAt(s[1..], sep, c - 1);
      FieldsOneSeparator(s[1..], sep, c - 1);
      assert [s[0]] + s[1..][..c - 1] == s[..c];
      assert s[1..][c..] == s[c + 1..];
    }
  }

  /** A token that starts with a colon always splits into at least two pieces. */
  lemma LeadingSeparatorSplits(s: string, sep: char)
    requires |s| > 0 && s[0] == sep
    ensures |Fields(s, sep)| >= 2
  {
  }
}
