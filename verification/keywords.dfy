/** Turning the sidebar's comma-separated keyword text into the flour keyword
    list, and the two name classifiers: flour rows (by those keywords) and
    liquid rows (by a fixed pattern). */
module Keywords {
  import opened Options
  import opened Text

  /** An entry of a parsed keyword list: non-empty, trimmed, lower-case and
      free of the separator. */
  predicate IsKeyword(k: string) {
    k != [] && IsStripped(k) && IsLower(k) && ',' !in k
  }

  predicate AllKeywords(words: seq<string>) {
    forall i :: 0 <= i < |words| ==> IsKeyword(words[i])
  }

  /** No piece holds the separator, as after a split. */
  predicate CommaFree(parts: seq<string>) {
    forall i :: 0 <= i < |parts| ==> ',' !in parts[i]
  }

  /** Every character of a stripped string comes from the original. */
  lemma StripKeepsChars(s: string, c: char)
    requires c in Strip(s)
    ensures c in s
  {
    var r := Strip(s);
    var i :| InfixBetweenSpaces(s, r, i);
    var k :| 0 <= k < |r| && r[k] == c;
    assert s[i + k] == c;
  }

  /** Lower-casing neither creates nor removes a comma. */
  lemma LowerKeepsComma(s: string)
    ensures ',' in Lower(s) <==> ',' in s
  {
    if ',' in Lower(s) {
      var k :| 0 <= k < |s| && Lower(s)[k] == ',';
      assert s[k] == ',';
    }
    if ',' in s {
      var k :| 0 <= k < |s| && s[k] == ',';
      assert Lower(s)[k] == ',';
    }
  }

  /** The keyword a single piece contributes: nothing when it is blank,
      otherwise its trimmed, lower-cased text. */
  function PieceKeyword(p: string): (ws: seq<string>)
    ensures |ws| <= 1
    ensures ws == [] <==> AllSpace(p)
  {
    var w := Strip(p);
    if w == [] then [] else [Lower(w)]
  }

  /** A comma-free piece contributes only a keyword. */
  lemma PieceIsKeyword(p: string)
    requires ',' !in p
    ensures AllKeywords(PieceKeyword(p))
  {
    var w := Strip(p);
    if w != [] {
      if ',' in w {
        StripKeepsChars(p, ',');
      }
      StrippedWordIsKeyword(w);
      assert PieceKeyword(p) == [Lower(w)];
    }
  }

  /** A non-blank, trimmed, comma-free word lower-cases to a keyword. */
  lemma StrippedWordIsKeyword(w: string)
    requires w != [] && IsStripped(w) && ',' !in w
    ensures IsKeyword(Lower(w))
  {
    LowerKeepsStripped(w);
    LowerKeepsComma(w);
  }

  /** The list comprehension over the pieces: blank pieces are dropped, the
      others trimmed and lower-cased, in order. */
  function KeepKeywords(parts: seq<string>): (words: seq<string>)
    ensures |words| <= |parts|
  {
    if |parts| == 0 then []
    else
      PieceKeyword(parts[0]) + KeepKeywords(parts[1..])
  }

  lemma AllKeywordsAppend(a: seq<string>, b: seq<string>)
    requires AllKeywords(a) && AllKeywords(b)
    ensures AllKeywords(a + b)
  {
    forall i | 0 <= i < |a + b| ensures IsKeyword((a + b)[i]) {
      if i < |a| {
        assert (a + b)[i] == a[i];
      } else {
        assert (a + b)[i] == b[i - |a|];
      }
    }
  }

  /** Comma-free pieces yield only keywords. */
  lemma {:induction false} KeepKeywordsAreKeywords(parts: seq<string>)
    requires CommaFree(parts)
    ensures AllKeywords(KeepKeywords(parts))
  {
    if |parts| > 0 {
      PieceIsKeyword(parts[0]);
      assert CommaFree(parts[1..]) by {
        forall i | 0 <= i < |parts| - 1 ensures ',' !in parts[1..][i] {
          assert parts[1..][i] == parts[i + 1];
        }
      }
      KeepKeywordsAreKeywords(parts[1..]);
      AllKeywordsAppend(PieceKeyword(parts[0]), KeepKeywords(parts[1..]));
    }
  }

  /** `flour_words` computed from the sidebar text. */
  function ParseKeywords(text: string): (words: seq<string>)
    ensures AllKeywords(words)
    ensures |words| <= |Split(text, ',')|
  {
    var parts := Split(text, ',');
    assert CommaFree(parts) by {
      forall i | 0 <= i < |parts| ensures ',' !in parts[i] {
        assert parts[i] in parts;
      }
    }
    KeepKeywordsAreKeywords(parts);
    KeepKeywords(parts)
  }

  /** Writes a keyword list back as sidebar text. */
  function JoinKeywords(words: seq<string>): string {
    if words == [] then "" else Join(words, ',')
  }

  /** `Strip` leaves an already stripped string alone. */
  lemma StripStripped(s: string)
    requires IsStripped(s)
    ensures Strip(s) == s
  {
    assert TrimStart(s) == s;
    assert TrimEnd(s) == s;
  }

  /** A keyword is its own piece. */
  lemma PieceOfKeyword(k: string)
    requires IsKeyword(k)
    ensures PieceKeyword(k) == [k]
  {
    StripStripped(k);
    LowerOfLower(k);
  }

  lemma AllKeywordsTail(ws: seq<string>)
    requires |ws| > 0 && AllKeywords(ws)
    ensures IsKeyword(ws[0]) && AllKeywords(ws[1..])
  {
    forall i | 0 <= i < |ws| - 1 ensures IsKeyword(ws[1..][i]) {
      assert ws[1..][i] == ws[i + 1];
    }
  }

  lemma ConsParts<T>(ws: seq<T>, head: seq<T>, tail: seq<T>)
    requires |ws| > 0 && head == [ws[0]] && tail == ws[1..]
    ensures head + tail == ws
  {
  }

  /** Keeping the keywords of a keyword list changes nothing. */
  lemma {:induction false} KeepKeywordsOfKeywords(ws: seq<string>)
    requires AllKeywords(ws)
    ensures KeepKeywords(ws) == ws
  {
    if |ws| > 0 {
      AllKeywordsTail(ws);
      PieceOfKeyword(ws[0]);
      KeepKeywordsOfKeywords(ws[1..]);
      ConsParts(ws, PieceKeyword(ws[0]), KeepKeywords(ws[1..]));
    }
  }

  /** Parsing the text written back from a keyword list gives that list. */
  lemma ParseJoinRoundTrip(ws: seq<string>)
    requires AllKeywords(ws)
    ensures ParseKeywords(JoinKeywords(ws)) == ws
  {
    if ws != [] {
      SplitJoin(ws, ',');
      KeepKeywordsOfKeywords(ws);
    }
  }

  /** Parsing is a normalisation: parse, write back, parse again changes
      nothing. */
  lemma ParseIdempotent(text: string)
    ensures ParseKeywords(JoinKeywords(ParseKeywords(text))) == ParseKeywords(text)
  {
    ParseJoinRoundTrip(ParseKeywords(text));
  }

  /** A comma splits the text into the pieces of its left part followed by
      the pieces of its right part. */
  lemma {:induction false} SplitAtSeparator(a: string, b: string)
    ensures Split(a + [','] + b, ',') == Split(a, ',') + Split(b, ',')
  {
    if |a| == 0 {
      assert a + [','] + b == [','] + b;
      assert ([','] + b)[1..] == b;
    } else {
      assert (a + [','] + b)[1..] == a[1..] + [','] + b;
      SplitAtSeparator(a[1..], b);
    }
  }

  /** The comprehension over two lists of pieces is the comprehension over
      the first followed by that over the second. */
  lemma {:induction false} KeepKeywordsAppend(x: seq<string>, y: seq<string>)
    ensures KeepKeywords(x + y) == KeepKeywords(x) + KeepKeywords(y)
  {
    if |x| == 0 {
      assert x + y == y;
    } else {
      var xy := x + y;
      assert xy[0] == x[0] && xy[1..] == x[1..] + y;
      KeepKeywordsCons(xy);
      KeepKeywordsCons(x);
      KeepKeywordsAppend(x[1..], y);
      AppendAssoc(PieceKeyword(x[0]), KeepKeywords(x[1..]), KeepKeywords(y));
    }
  }

  /** One step of the comprehension: the first piece's keyword, then the
      rest. */
  lemma KeepKeywordsCons(ps: seq<string>)
    requires |ps| > 0
    ensures KeepKeywords(ps) == PieceKeyword(ps[0]) + KeepKeywords(ps[1..])
  {
  }

  lemma AppendAssoc(a: seq<string>, b: seq<string>, c: seq<string>)
    ensures a + (b + c) == (a + b) + c
  {
  }

  /** Keywords keep the order of the text: those before a comma come first,
      then those after it. */
  lemma ParseKeepsOrder(a: string, b: string)
    ensures ParseKeywords(a + [','] + b) == ParseKeywords(a) + ParseKeywords(b)
  {
    SplitAtSeparator(a, b);
    KeepKeywordsAppend(Split(a, ','), Split(b, ','));
  }

  /** `p` is the word `w`, possibly after one space; `w` is stripped,
      comma-free and lower-cases to `k`. */
  predicate WordPiece(p: string, w: string, k: string) {
    && (p == w || p == [' '] + w)
    && w != [] && IsStripped(w) && ',' !in w && Lower(w) == k
  }

  /** Such a piece contributes exactly the keyword `k`. */
  lemma WordPieceKeyword(p: string, w: string, k: string)
    requires WordPiece(p, w, k)
    ensures PieceKeyword(p) == [k]
  {
    if p == w {
      StripStripped(w);
    } else {
      StripAfterSpace(w);
    }
  }

  /** One leading space is stripped off a stripped word. */
  lemma StripAfterSpace(w: string)
    requires w != [] && IsStripped(w)
    ensures Strip([' '] + w) == w
  {
    var p := [' '] + w;
    assert p[1..] == w;
    assert TrimStart(w) == w;
    assert TrimStart(p) == w;
    assert TrimEnd(w) == w;
  }

  /** The comprehension over pieces whose first one contributes the keyword
      `k`: `k` followed by what the remaining pieces contribute. */
  lemma KeepFirstKeyword(ps: seq<string>, k: string)
    requires |ps| > 0 && PieceKeyword(ps[0]) == [k]
    ensures KeepKeywords(ps) == [k] + KeepKeywords(ps[1..])
  {
    KeepKeywordsCons(ps);
  }

  /** Lists each of which is one element of `ks` followed by the next list,
      ending in the empty list, are the suffixes of `ks`. */
  lemma {:induction false} ConsChain(ys: seq<seq<string>>, ks: seq<string>, n: nat)
    requires |ys| == |ks| + 1 && n <= |ks| && ys[|ks|] == []
    requires forall i :: 0 <= i < |ks| ==> ys[i] == [ks[i]] + ys[i + 1]
    ensures ys[n] == ks[n..]
    decreases |ks| - n
  {
    if n < |ks| {
      ConsChain(ys, ks, n + 1);
      assert ks[n..] == [ks[n]] + ks[n + 1..];
    }
  }

  /** Pieces that each contribute one keyword keep exactly those keywords,
      in order. */
  lemma KeepOneEach(ps: seq<string>, ks: seq<string>)
    requires |ps| == |ks|
    requires forall i :: 0 <= i < |ps| ==> PieceKeyword(ps[i]) == [ks[i]]
    ensures KeepKeywords(ps) == ks
  {
    var ys := seq(|ps| + 1, i requires 0 <= i <= |ps| => KeepKeywords(ps[i..]));
    forall i | 0 <= i < |ks| ensures ys[i] == [ks[i]] + ys[i + 1] {
      assert ps[i..][0] == ps[i] && ps[i..][1..] == ps[i + 1..];
      KeepFirstKeyword(ps[i..], ks[i]);
    }
    ConsChain(ys, ks, 0);
    assert ps[0..] == ps;
  }

  /** Text written as word pieces between commas parses to the pieces'
      keywords. */
  lemma ParseWordPieces(ps: seq<string>, ws: seq<string>, ks: seq<string>)
    requires |ps| == |ws| == |ks| >= 1
    requires forall i :: 0 <= i < |ps| ==> WordPiece(ps[i], ws[i], ks[i])
    ensures ParseKeywords(Join(ps, ',')) == ks
  {
    forall p | p in ps ensures ',' !in p {
      var i :| 0 <= i < |ps| && ps[i] == p;
      assert WordPiece(ps[i], ws[i], ks[i]);
    }
    forall i | 0 <= i < |ps| ensures PieceKeyword(ps[i]) == [ks[i]] {
      WordPieceKeyword(ps[i], ws[i], ks[i]);
    }
    SplitJoin(ps, ',');
    KeepOneEach(ps, ks);
  }

  /** A comma-free text yields its trimmed, lower-cased self, or nothing
      when it is blank. */
  lemma ParseSinglePiece(p: string)
    requires ',' !in p
    ensures ParseKeywords(p) == (if AllSpace(p) then [] else [Lower(Strip(p))])
  {
    SplitJoin([p], ',');
  }

  /** The text `is_flour` inspects: the lower-cased name, or the empty string
      when the name is missing (`(name or "").lower()`). */
  function NameText(name: Option<string>): string {
    match name
    case None => ""
    case Some(s) => Lower(s)
  }

  /** `is_flour`: some keyword occurs in the lower-cased name. */
  function IsFlour(name: Option<string>, words: seq<string>): (b: bool)
    ensures words == [] ==> !b
  {
    AnyContains(NameText(name), words)
  }

  /** With parsed keywords, flour means: some keyword occurs, at some index,
      in the lower-cased name; a missing or empty name is never flour. */
  lemma FlourIffKeywordOccurs(name: Option<string>, text: string)
    ensures IsFlour(name, ParseKeywords(text))
            <==> (name.Some? && exists k, i :: k in ParseKeywords(text) && OccursAt(Lower(name.value), k, i))
    ensures name == None || name == Some("") ==> !IsFlour(name, ParseKeywords(text))
  {
    var words := ParseKeywords(text);
    AnyContainsIff(NameText(name), words);
    if IsFlour(name, words) {
      var k :| k in words && Contains(NameText(name), k);
      assert IsKeyword(k);
      ContainsIff(NameText(name), k);
      var i :| OccursAt(NameText(name), k, i);
      assert name.Some?;
    }
    if name.Some? && exists k, i :: k in words && OccursAt(Lower(name.value), k, i) {
      var k, i :| k in words && OccursAt(Lower(name.value), k, i);
      ContainsIff(Lower(name.value), k);
    }
  }

  /** Flour classification ignores the case of the name. */
  lemma FlourIgnoresCase(name: string, words: seq<string>)
    ensures IsFlour(Some(name), words) == IsFlour(Some(Lower(name)), words)
  {
    LowerIdempotent(name);
  }

  /** The alternatives of the liquid pattern `水|water|牛乳|milk|卵|egg`. */
  const LiquidPattern: seq<string> := ["水", "water", "牛乳", "milk", "卵", "egg"]

  /** `str.contains(pattern, case=False, na=False)` on the name column: a
      missing name never matches. */
  function IsLiquid(name: Option<string>): (b: bool)
    ensures b ==> name.Some? && |name.value| > 0
  {
    if name.Some? then
      WordsNeedText(Lower(name.value), LiquidPattern);
      AnyContains(Lower(name.value), LiquidPattern)
    else false
  }

  /** Non-empty words occur only in a non-empty text. */
  lemma WordsNeedText(s: string, words: seq<string>)
    requires forall k :: k in words ==> |k| > 0
    ensures AnyContains(s, words) ==> |s| > 0
  {
    if AnyContains(s, words) {
      AnyContainsIff(s, words);
      var k :| k in words && Contains(s, k);
    }
  }

  /** A row is liquid iff its name is present and one of the pattern's
      alternatives occurs, at some index, in the lower-cased name. */
  lemma LiquidIff(name: Option<string>)
    ensures IsLiquid(name) <==>
            (name.Some? && exists k, i :: k in LiquidPattern && OccursAt(Lower(name.value), k, i))
  {
    if name.Some? {
      var s := Lower(name.value);
      AnyContainsIff(s, LiquidPattern);
      if IsLiquid(name) {
        var k :| k in LiquidPattern && Contains(s, k);
        ContainsIff(s, k);
        var i :| OccursAt(s, k, i);
      }
      if exists k, i :: k in LiquidPattern && OccursAt(s, k, i) {
        var k, i :| k in LiquidPattern && OccursAt(s, k, i);
        ContainsIff(s, k);
      }
    }
  }
}
