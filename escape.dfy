/** `escape_markdown_v2` (services.py:506-512): backslash-escape the 18
    characters that Telegram's MarkdownV2 formatting reserves. The source
    makes one `str.replace` pass per reserved character; the model proves
    that this equals a single per-character pass. */
module Escape {

  /** The reserved characters, in the order the source replaces them. */
  const Reserved: string := "_[]()~`>#*+-|=}{.!"

  function CharsOf(s: string): set<char>
  {
    set c | c in s
  }

  /** One character escaped against the set `rs`. */
  function EscapeChar(c: char, rs: set<char>): string
  {
    if c in rs then ['\\', c] else [c]
  }

  /** Single-pass escaping: every character of `rs` gets a backslash in
      front of it, every other character is copied. */
  function EscapeWith(s: string, rs: set<char>): string
  {
    if s == [] then [] else EscapeChar(s[0], rs) + EscapeWith(s[1..], rs)
  }

  /** The specification of `escape_markdown_v2`. */
  function Escaped(s: string): string
  {
    EscapeWith(s, CharsOf(Reserved))
  }

  /** Python's `s.replace(c, rep)` for a one-character pattern `c`. */
  function Replace(s: string, c: char, rep: string): string
  {
    if s == [] then [] else (if s[0] == c then rep else [s[0]]) + Replace(s[1..], c, rep)
  }

  lemma {:induction false} ReplaceAppend(a: string, b: string, c: char, rep: string)
    ensures Replace(a + b, c, rep) == Replace(a, c, rep) + Replace(b, c, rep)
    decreases |a|
  {
    if a == [] {
      assert a + b == b;
    } else {
      assert (a + b)[0] == a[0];
      assert (a + b)[1..] == a[1..] + b;
      ReplaceAppend(a[1..], b, c, rep);
    }
  }

  /** Replacing one more character `c` in a text already escaped against
      `rs` escapes it against `rs + {c}`, provided `c` is new and neither it
      nor `rs` contains the backslash: no backslash is ever escaped twice. */
  lemma {:induction false} ReplaceExtendsEscape(s: string, rs: set<char>, c: char)
    requires c !in rs && c != '\\' && '\\' !in rs
    ensures Replace(EscapeWith(s, rs), c, ['\\', c]) == EscapeWith(s, rs + {c})
    decreases |s|
  {
    if s != [] {
      ReplaceAppend(EscapeChar(s[0], rs), EscapeWith(s[1..], rs), c, ['\\', c]);
      ReplaceExtendsEscape(s[1..], rs, c);
      if s[0] in rs {
        assert Replace(['\\', s[0]], c, ['\\', c]) == ['\\', s[0]];
      } else {
        assert Replace([s[0]], c, ['\\', c]) == EscapeChar(s[0], rs + {c});
      }
    }
  }

  lemma ReservedFacts()
    ensures '\\' !in Reserved
    ensures forall i, j :: 0 <= i < j < |Reserved| ==> Reserved[i] != Reserved[j]
    ensures |Reserved| == 18
  {
  }

  /** `escape_markdown_v2`: one replacement pass per reserved character. */
  method EscapeMarkdownV2(text: string) returns (r: string)
    ensures r == Escaped(text)
  {
    ReservedFacts();
    r := text;
    var i := 0;
    assert CharsOf(Reserved[..0]) == {};
    EscapeNothing(text);
    while i < |Reserved|
      invariant 0 <= i <= |Reserved|
      invariant r == EscapeWith(text, CharsOf(Reserved[..i]))
    {
      var c := Reserved[i];
      assert c !in CharsOf(Reserved[..i]);
      ReplaceExtendsEscape(text, CharsOf(Reserved[..i]), c);
      r := Replace(r, c, ['\\', c]);
      assert CharsOf(Reserved[..i + 1]) == CharsOf(Reserved[..i]) + {c} by {
        assert Reserved[..i + 1] == Reserved[..i] + [c];
      }
      i := i + 1;
    }
    assert Reserved[..i] == Reserved;
  }

  lemma {:induction false} EscapeNothing(s: string)
    ensures EscapeWith(s, {}) == s
    decreases |s|
  {
    if s != [] {
      EscapeNothing(s[1..]);
      assert s == [s[0]] + s[1..];
    }
  }

  /** Undo the escaping: a backslash in front of a character of `rs` is
      dropped, everything else is copied. */
  function Unescape(s: string, rs: set<char>): string
    decreases |s|
  {
    if s == [] then []
    else if |s| >= 2 && s[0] == '\\' && s[1] in rs then [s[1]] + Unescape(s[2..], rs)
    else [s[0]] + Unescape(s[1..], rs)
  }

  /** Escaping loses nothing: unescaping gives the text back, so no
      character is escaped twice and distinct texts escape differently. */
  lemma {:induction false} UnescapeEscape(s: string, rs: set<char>)
    requires '\\' !in rs
    ensures Unescape(EscapeWith(s, rs), rs) == s
    decreases |s|
  {
    if s != [] {
      var rest := EscapeWith(s[1..], rs);
      UnescapeEscape(s[1..], rs);
      assert rest != [] ==> rest[0] !in rs by {
        if s[1..] != [] {
          assert rest == EscapeChar(s[1..][0], rs) + EscapeWith(s[1..][1..], rs);
        }
      }
      if s[0] in rs {
        assert EscapeWith(s, rs) == ['\\', s[0]] + rest;
        assert EscapeWith(s, rs)[2..] == rest;
      } else {
        assert EscapeWith(s, rs) == [s[0]] + rest;
        assert EscapeWith(s, rs)[1..] == rest;
      }
      assert s == [s[0]] + s[1..];
    }
  }

  /** The round trip for the MarkdownV2 reserved set. */
  lemma EscapedRoundTrip(s: string)
    ensures Unescape(Escaped(s), CharsOf(Reserved)) == s
  {
    ReservedFacts();
    UnescapeEscape(s, CharsOf(Reserved));
  }
}
