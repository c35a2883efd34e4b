/** The part of JavaScript's string library that the modelled components rely on. */
module JsString {

  /** The characters `String.prototype.trim` removes: white space and line terminators. */
  predicate IsSpace(c: char) {
    || c in {'\t', '\n', '\r', ' ', '\U{0B}', '\U{0C}', '\U{A0}', '\U{1680}', '\U{2028}', '\U{2029}'}
    || c in {'\U{202F}', '\U{205F}', '\U{3000}', '\U{FEFF}'}
    || '\U{2000}' <= c <= '\U{200A}'
  }

  predicate AllSpace(s: string) {
    forall i :: 0 <= i < |s| ==> IsSpace(s[i])
  }

  function TrimStart(s: string): string {
    if s != [] && IsSpace(s[0]) then TrimStart(s[1..]) else s
  }

  function TrimEnd(s: string): string {
    if s != [] && IsSpace(s[|s| - 1]) then TrimEnd(s[..|s| - 1]) else s
  }

  function Trim(s: string): string {
    TrimEnd(TrimStart(s))
  }

  lemma TrimLeadingSpace(c: char, s: string)
    requires IsSpace(c)
    ensures Trim([c] + s) == Trim(s)
  {
    assert ([c] + s)[1..] == s;
  }

  lemma {:induction false} TrimStartSnoc(s: string, c: char)
    ensures TrimStart(s + [c]) ==
            if AllSpace(s) then TrimStart([c]) else TrimStart(s) + [c]
    ensures AllSpace(s) <==> TrimStart(s) == []
  {
    if s == [] {
      assert s + [c] == [c];
    } else if IsSpace(s[0]) {
      TrimStartSnoc(s[1..], c);
      assert (s + [c])[1..] == s[1..] + [c];
      assert AllSpace(s) <==> AllSpace(s[1..]) by {
        assert AllSpace(s) ==> AllSpace(s[1..]);
        if AllSpace(s[1..]) {
          forall i | 0 <= i < |s| ensures IsSpace(s[i]) {
            assert i > 0 ==> s[i] == s[1..][i - 1];
          }
        }
      }
    }
  }

  lemma TrimTrailingSpace(s: string, c: char)
    requires IsSpace(c)
    ensures Trim(s + [c]) == Trim(s)
  {
    TrimStartSnoc(s, c);
    if AllSpace(s) {
      TrimLeadingSpace(c, []);
      assert [c] + [] == [c];
      assert TrimStart(s) == [];
    } else {
      var t := TrimStart(s);
      assert (t + [c])[..|t + [c]| - 1] == t;
    }
  }

  /** What is left of a string after trimming starts and ends with a non-space. */
  lemma {:induction false} TrimStartHead(s: string)
    ensures TrimStart(s) != [] ==> !IsSpace(TrimStart(s)[0])
  {
    if s == [] || !IsSpace(s[0]) {
    } else {
      TrimStartHead(s[1..]);
    }
  }

  lemma {:induction false} TrimEndEnds(s: string)
    ensures TrimEnd(s) <= s
    ensures TrimEnd(s) != [] ==> !IsSpace(TrimEnd(s)[|TrimEnd(s)| - 1])
    ensures s != [] && !IsSpace(s[0]) ==> TrimEnd(s) != []
  {
    if s == [] || !IsSpace(s[|s| - 1]) {
    } else {
      TrimEndEnds(s[..|s| - 1]);
    }
  }

  lemma TrimEnds(s: string)
    ensures Trim(s) != [] ==> !IsSpace(Trim(s)[0]) && !IsSpace(Trim(s)[|Trim(s)| - 1])
    ensures Trim(s) == [] <==> AllSpace(s)
  {
    TrimStartHead(s);
    TrimEndEnds(TrimStart(s));
    TrimStartSnoc(s, ' ');
  }

  lemma TrimIdempotent(s: string)
    ensures Trim(Trim(s)) == Trim(s)
  {
    TrimEnds(s);
  }

  lemma TrimKeepsTrimmed(s: string)
    requires s != [] && !IsSpace(s[0]) && !IsSpace(s[|s| - 1])
    ensures Trim(s) == s
  {
  }

  /** Trimming at the end stops at a character that is not white space. */
  lemma {:induction false} TrimEndBehind(s: string, rest: string)
    requires s != [] && !IsSpace(s[|s| - 1])
    ensures TrimEnd(s + rest) == s + TrimEnd(rest)
  {
    if rest == [] {
      assert s + rest == s;
    } else {
      var n := |rest| - 1;
      assert (s + rest)[..|s| + n] == s + rest[..n];
      TrimEndBehind(s, rest[..n]);
    }
  }

  /** Trimming only removes characters. */
  lemma {:induction false} TrimStartChars(s: string, c: char)
    ensures c in TrimStart(s) ==> c in s
  {
    if s == [] || !IsSpace(s[0]) {
    } else {
      TrimStartChars(s[1..], c);
    }
  }

  lemma TrimChars(s: string, c: char)
    ensures c in Trim(s) ==> c in s
  {
    TrimStartChars(s, c);
    TrimEndEnds(TrimStart(s));
  }

  /** White space by code point: the 25 characters of ECMAScript's white space and line ends. */
  lemma SpaceCodes(c: char)
    ensures IsSpace(c) <==>
            || 9 <= c as int <= 13 || c as int == 32 || c as int == 160 || c as int == 5760
            || 8192 <= c as int <= 8202 || c as int == 8232 || c as int == 8233 || c as int == 8239
            || c as int == 8287 || c as int == 12288 || c as int == 65279
  {
  }

  lemma {:induction false} TrimStartCuts(s: string) returns (lead: string)
    ensures AllSpace(lead) && s == lead + TrimStart(s)
  {
    if s == [] || !IsSpace(s[0]) {
      lead := [];
    } else {
      lead := TrimStartCuts(s[1..]);
      lead := [s[0]] + lead;
    }
  }

  lemma {:induction false} TrimEndCuts(s: string) returns (trail: string)
    ensures AllSpace(trail) && s == TrimEnd(s) + trail
  {
    if s == [] || !IsSpace(s[|s| - 1]) {
      trail := [];
    } else {
      trail := TrimEndCuts(s[..|s| - 1]);
      trail := trail + [s[|s| - 1]];
    }
  }

  /** Trimming takes white space off both ends, and all of it. */
  lemma TrimMeaning(s: string) returns (lead: string, trail: string)
    ensures AllSpace(lead) && AllSpace(trail) && s == lead + Trim(s) + trail
    ensures Trim(s) != [] ==> !IsSpace(Trim(s)[0]) && !IsSpace(Trim(s)[|Trim(s)| - 1])
  {
    TrimEnds(s);
    lead := TrimStartCuts(s);
    trail := TrimEndCuts(TrimStart(s));
  }
}
