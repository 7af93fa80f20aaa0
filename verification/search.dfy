/**
 * The search box's suggestion list: the names of catalog roads whose
 * lower-case form contains the lower-case query, at most five of them, and
 * none at all while the trimmed query is shorter than two characters.
 */
module Search {
  import opened Wrappers
  import opened RoadCatalog

  const MinQueryLength: nat := 2
  const MaxSuggestions: nat := 5

  /** The characters `String.prototype.trim` strips: ECMAScript WhiteSpace and LineTerminator. */
  predicate IsWhitespace(c: char) {
    || ('\U{0009}' <= c <= '\U{000D}')
    || c == ' ' || c == '\U{00A0}' || c == '\U{1680}'
    || ('\U{2000}' <= c <= '\U{200A}')
    || c == '\U{2028}' || c == '\U{2029}' || c == '\U{202F}' || c == '\U{205F}'
    || c == '\U{3000}' || c == '\U{FEFF}'
  }

  /** The string with its leading whitespace removed. */
  function TrimStart(s: string): (r: string)
    ensures |r| <= |s| && r == s[|s| - |r|..]
    ensures forall k :: 0 <= k < |s| - |r| ==> IsWhitespace(s[k])
    ensures r != [] ==> !IsWhitespace(r[0])
  {
    if s != [] && IsWhitespace(s[0]) then TrimStart(s[1..]) else s
  }

  /** The string with its trailing whitespace removed. */
  function TrimEnd(s: string): (r: string)
    ensures |r| <= |s| && r == s[..|r|]
    ensures forall k :: |r| <= k < |s| ==> IsWhitespace(s[k])
    ensures r != [] ==> !IsWhitespace(r[|r| - 1])
  {
    if s != [] && IsWhitespace(s[|s| - 1]) then TrimEnd(s[..|s| - 1]) else s
  }

  /** `r` is `s` from index `i` on, with only whitespace cut away on either side. */
  predicate IsCutFrom(s: string, r: string, i: int) {
    && 0 <= i <= |s| - |r| && r == s[i..i + |r|]
    && (forall k :: 0 <= k < i ==> IsWhitespace(s[k]))
    && (forall k :: i + |r| <= k < |s| ==> IsWhitespace(s[k]))
  }

  /** `text.trim()`: the part of the text that neither starts nor ends with whitespace. */
  function Trim(s: string): (r: string)
    ensures exists i :: IsCutFrom(s, r, i)
    ensures r != [] ==> !IsWhitespace(r[0]) && !IsWhitespace(r[|r| - 1])
  {
    var t := TrimStart(s);
    var r := TrimEnd(t);
    assert IsCutFrom(s, r, |s| - |t|);
    r
  }

  /** An ASCII capital letter. */
  predicate IsUpper(c: char) {
    'A' <= c <= 'Z'
  }

  /** Lower-casing of one character; only the ASCII letters are mapped. */
  function LowerChar(c: char): (r: char)
    ensures !IsUpper(r)
    ensures !IsUpper(c) ==> r == c
    ensures IsUpper(c) ==> 'a' <= r <= 'z' && r as int - c as int == 'a' as int - 'A' as int
  {
    if IsUpper(c) then (c as int - 'A' as int + 'a' as int) as char else c
  }

  /** `s.toLowerCase()` */
  function Lower(s: string): (r: string)
    ensures |r| == |s|
    ensures forall k :: 0 <= k < |s| ==> r[k] == LowerChar(s[k])
    ensures forall k :: 0 <= k < |r| ==> !IsUpper(r[k])
    ensures forall k :: 0 <= k < |s| && !IsUpper(s[k]) ==> r[k] == s[k]
  {
    seq(|s|, k requires 0 <= k < |s| => LowerChar(s[k]))
  }

  /** Lower-casing a lower-cased text changes nothing. */
  lemma LowerIdempotent(s: string)
    ensures Lower(Lower(s)) == Lower(s)
  {
  }

  /** Lower-casing works character by character, so it commutes with dropping the first or last character. */
  lemma LowerSlices(s: string)
    requires s != []
    ensures Lower(s)[1..] == Lower(s[1..])
    ensures Lower(s)[..|s| - 1] == Lower(s[..|s| - 1])
  {
  }

  /** Lower-casing neither creates nor removes whitespace. */
  lemma LowerKeepsWhitespace(c: char)
    ensures IsWhitespace(LowerChar(c)) <==> IsWhitespace(c)
  {
  }

  /**
   * `String.prototype.length`: the number of UTF-16 code units. A character
   * at or above U+10000 is stored as a surrogate pair and counts twice.
   */
  function Utf16Length(s: string): (n: nat)
    ensures |s| <= n <= 2 * |s|
    ensures (forall k :: 0 <= k < |s| ==> s[k] as int < 0x1_0000) ==> n == |s|
  {
    if s == [] then 0
    else (if s[0] as int >= 0x1_0000 then 2 else 1) + Utf16Length(s[1..])
  }

  /** Lower-casing keeps the UTF-16 length. */
  lemma {:induction false} LowerKeepsUtf16Length(s: string)
    ensures Utf16Length(Lower(s)) == Utf16Length(s)
  {
    if s != [] {
      LowerSlices(s);
      LowerKeepsUtf16Length(s[1..]);
    }
  }

  /** Texts equal up to case have their leading whitespace cut at the same place. */
  lemma {:induction false} TrimStartCaseless(a: string, b: string)
    requires Lower(a) == Lower(b)
    ensures Lower(TrimStart(a)) == Lower(TrimStart(b))
  {
    if a != [] {
      LowerKeepsWhitespace(a[0]);
      LowerKeepsWhitespace(b[0]);
      assert LowerChar(a[0]) == Lower(a)[0] == Lower(b)[0] == LowerChar(b[0]);
      if IsWhitespace(a[0]) {
        LowerSlices(a);
        LowerSlices(b);
        TrimStartCaseless(a[1..], b[1..]);
      }
    }
  }

  /** Texts equal up to case have their trailing whitespace cut at the same place. */
  lemma {:induction false} TrimEndCaseless(a: string, b: string)
    requires Lower(a) == Lower(b)
    ensures Lower(TrimEnd(a)) == Lower(TrimEnd(b))
  {
    if a != [] {
      var n := |a| - 1;
      LowerKeepsWhitespace(a[n]);
      LowerKeepsWhitespace(b[n]);
      assert LowerChar(a[n]) == Lower(a)[n] == Lower(b)[n] == LowerChar(b[n]);
      if IsWhitespace(a[n]) {
        LowerSlices(a);
        LowerSlices(b);
        TrimEndCaseless(a[..n], b[..n]);
      }
    }
  }

  /** `sub` occurs in `s` starting at index `i`. */
  predicate OccursAt(s: string, sub: string, i: int) {
    0 <= i <= |s| - |sub| && s[i..i + |sub|] == sub
  }

  /** `s.includes(sub)`: the left-to-right search for an occurrence. */
  function Includes(s: string, sub: string): (b: bool)
    ensures b <==> exists i :: OccursAt(s, sub, i)
  {
    if |sub| > |s| then false
    else if s[..|sub|] == sub then
      assert OccursAt(s, sub, 0);
      true
    else
      assert forall i :: OccursAt(s[1..], sub, i) <==> OccursAt(s, sub, i + 1);
      assert !OccursAt(s, sub, 0);
      assert forall i :: OccursAt(s, sub, i) ==> OccursAt(s[1..], sub, i - 1);
      Includes(s[1..], sub)
  }

  /** The `filter` test: a present, non-empty name whose lower-case form contains `query`. */
  predicate NameMatches(name: Option<string>, query: string) {
    name.Some? && name.value != "" && Includes(Lower(name.value), query)
  }

  /** `roads.map(r => r.properties?.name).filter(...)`: every matching name, in catalog order. */
  function Matches(roads: seq<Record>, query: string): (names: seq<string>)
    ensures |names| <= |roads|
    ensures forall k :: 0 <= k < |names| ==> names[k] != "" && Includes(Lower(names[k]), query)
  {
    if roads == [] then []
    else (if NameMatches(NameOf(roads[0]), query) then [NameOf(roads[0]).value] else [])
         + Matches(roads[1..], query)
  }

  /** A name is among the matches exactly when some road of the catalog carries it and matches. */
  lemma {:induction false} MatchesComplete(roads: seq<Record>, query: string, name: string)
    ensures name in Matches(roads, query)
        <==> exists i :: 0 <= i < |roads| && NameOf(roads[i]) == Some(name) && NameMatches(Some(name), query)
  {
    if roads != [] {
      MatchesComplete(roads[1..], query, name);
      if name in Matches(roads[1..], query) {
        var i :| 0 <= i < |roads[1..]| && NameOf(roads[1..][i]) == Some(name) && NameMatches(Some(name), query);
        assert NameOf(roads[i + 1]) == Some(name);
      }
      if exists i :: 0 <= i < |roads| && NameOf(roads[i]) == Some(name) && NameMatches(Some(name), query) {
        var i :| 0 <= i < |roads| && NameOf(roads[i]) == Some(name) && NameMatches(Some(name), query);
        if i > 0 {
          assert NameOf(roads[1..][i - 1]) == Some(name);
        }
      }
    }
  }

  /** Matching goes record by record, so the matches keep catalog order. */
  lemma {:induction false} MatchesAppend(a: seq<Record>, b: seq<Record>, query: string)
    ensures Matches(a + b, query) == Matches(a, query) + Matches(b, query)
  {
    if a == [] {
      assert a + b == b;
    } else {
      assert (a + b)[0] == a[0];
      assert (a + b)[1..] == a[1..] + b;
      MatchesAppend(a[1..], b, query);
      var head := if NameMatches(NameOf(a[0]), query) then [NameOf(a[0]).value] else [];
      assert Matches(a + b, query) == head + (Matches(a[1..], query) + Matches(b, query));
    }
  }

  /** `handleSearch`: the suggestions shown for the text typed so far. */
  function Suggestions(roads: seq<Record>, text: string): (r: seq<string>)
    ensures Utf16Length(Trim(text)) < MinQueryLength ==> r == []
    ensures |r| <= MaxSuggestions
    ensures Utf16Length(Trim(text)) >= MinQueryLength ==> r <= Matches(roads, Lower(text))
    ensures Utf16Length(Trim(text)) >= MinQueryLength ==>
      |r| == if |Matches(roads, Lower(text))| < MaxSuggestions then |Matches(roads, Lower(text))| else MaxSuggestions
  {
    if Utf16Length(Trim(text)) < MinQueryLength then []
    else
      Shown(Matches(roads, Lower(text)))
  }

  /** `slice(0, 5)`: the first five matches, or all of them when there are fewer. */
  function Shown(all: seq<string>): (r: seq<string>)
    ensures r <= all
    ensures |r| == if |all| < MaxSuggestions then |all| else MaxSuggestions
  {
    if |all| <= MaxSuggestions then all else all[..MaxSuggestions]
  }

  /** Texts that lower-case alike have trimmed forms of the same UTF-16 length. */
  lemma TrimLengthCaseless(t1: string, t2: string)
    requires Lower(t1) == Lower(t2)
    ensures Utf16Length(Trim(t1)) == Utf16Length(Trim(t2))
  {
    TrimStartCaseless(t1, t2);
    TrimEndCaseless(TrimStart(t1), TrimStart(t2));
    LowerKeepsUtf16Length(Trim(t1));
    LowerKeepsUtf16Length(Trim(t2));
  }

  /** The search ignores case: two texts that lower-case alike get the same suggestions. */
  lemma SuggestionsIgnoreCase(roads: seq<Record>, t1: string, t2: string)
    requires Lower(t1) == Lower(t2)
    ensures Suggestions(roads, t1) == Suggestions(roads, t2)
  {
    TrimLengthCaseless(t1, t2);
    var q := Lower(t1);
    assert Suggestions(roads, t1) == (if Utf16Length(Trim(t1)) < MinQueryLength then [] else Shown(Matches(roads, q)));
    assert Suggestions(roads, t2) == (if Utf16Length(Trim(t2)) < MinQueryLength then [] else Shown(Matches(roads, q)));
  }

  /** Every suggestion is a non-empty catalog name containing the untrimmed query, ignoring case. */
  lemma SuggestionsMatch(roads: seq<Record>, text: string, name: string)
    requires name in Suggestions(roads, text)
    ensures name != "" && Includes(Lower(name), Lower(text))
    ensures exists i :: 0 <= i < |roads| && NameOf(roads[i]) == Some(name)
  {
    var all := Matches(roads, Lower(text));
    assert name in all;
    MatchesComplete(roads, Lower(text), name);
  }

  /** "Abra" lower-cased contains "ab" but not "ab ". */
  lemma AbraContents()
    ensures Includes(Lower("Abra"), "ab")
    ensures !Includes(Lower("Abra"), "ab ")
  {
    var lowered := Lower("Abra");
    assert lowered == "abra";
    assert OccursAt(lowered, "ab", 0);
    forall i | 0 <= i <= |lowered| - 3 ensures !OccursAt(lowered, "ab ", i) {
      assert lowered[i..i + 3][2] == lowered[i + 2];
    }
  }

  /** Trimming strips the trailing blank of "ab ". */
  lemma TrimDropsTrailingBlank()
    ensures Trim("ab ") == "ab"
  {
    assert TrimStart("ab ") == "ab " by {
      assert !IsWhitespace('a');
    }
    assert TrimEnd("ab ") == "ab" by {
      assert IsWhitespace(' ');
      assert "ab "[..2] == "ab";
      assert !IsWhitespace('b');
    }
  }

  lemma TrimKeepsWord()
    ensures Trim("ab") == "ab"
  {
    assert !IsWhitespace('a');
    assert !IsWhitespace('b');
    assert TrimStart("ab") == "ab";
  }

  /** A one-road catalog used to show how the query is matched. */
  const AbraCatalog: seq<Record> := [Record(Some([]), Some(Properties(Some("Abra"), Some(30.0))))]

  lemma AbraMatches()
    ensures Matches(AbraCatalog, "ab") == ["Abra"]
    ensures Matches(AbraCatalog, "ab ") == []
  {
    AbraContents();
    assert AbraCatalog[1..] == [];
  }

  lemma LowerQueries()
    ensures Lower("ab ") == "ab " && Lower("ab") == "ab"
  {
  }

  /**
   * The query is matched untrimmed: "ab " passes the length guard, but then
   * its trailing blank must occur in the name too, so "Abra" is not
   * suggested for "ab " (while it is for "ab", below).
   */
  lemma UntrimmedQuery()
    ensures Suggestions(AbraCatalog, "ab ") == []
  {
    TrimDropsTrailingBlank();
    LowerQueries();
    AbraMatches();
    var all := Matches(AbraCatalog, Lower("ab "));
    assert all == [];
  }

  lemma TrimmedQuery()
    ensures Suggestions(AbraCatalog, "ab") == ["Abra"]
  {
    TrimKeepsWord();
    LowerQueries();
    AbraMatches();
    var all := Matches(AbraCatalog, Lower("ab"));
    assert all == ["Abra"];
  }

  /** A one-character query outside the Basic Multilingual Plane is two UTF-16 units, so it passes the length guard. */
  lemma AstralQueryLongEnough()
    ensures Utf16Length(Trim("\U{1F600}")) == MinQueryLength
  {
    assert !IsWhitespace('\U{1F600}');
    assert TrimStart("\U{1F600}") == "\U{1F600}";
  }
}
