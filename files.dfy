/**
 * files.go: finding the page images of a score saved to disk, and reading
 * its title and composer from the saved HTML page.  The directory walk, file
 * opening, PNG decoding and integer parsing are not modelled: the walked file
 * names and decoded images come in as pairs, and strconv.ParseInt as a
 * function parameter.  The HTML tokenizer is modelled as a cursor over a
 * given token sequence.
 */
module Files {
  import opened Results

  // ---------------------------------------------------------------------------
  // The file-name filter

  /** strings.SplitN(name, ".", 2) when it yields two parts: the text before the first '.' and the rest. */
  function SplitFirstDot(s: string): (r: Option<(string, string)>)
    ensures r.None? <==> '.' !in s
    ensures r.Some? ==> s == r.value.0 + "." + r.value.1 && '.' !in r.value.0
  {
    if |s| == 0 then None
    else if s[0] == '.' then Some(([], s[1..]))
    else
      match SplitFirstDot(s[1..])
      case None => None
      case Some(parts) => Some(([s[0]] + parts.0, parts.1))
  }

  /** Any split of s at a '.' with no '.' before it is the one SplitFirstDot finds. */
  lemma {:induction false} SplitFirstDotUnique(s: string, stem: string, ext: string)
    requires s == stem + "." + ext && '.' !in stem
    ensures SplitFirstDot(s) == Some((stem, ext))
  {
    if |stem| > 0 {
      assert s[1..] == stem[1..] + "." + ext;
      SplitFirstDotUnique(s[1..], stem[1..], ext);
      assert [s[0]] + stem[1..] == stem;
    } else {
      assert s[1..] == ext;
    }
  }

  function LowerChar(c: char): char
  {
    if 'A' <= c <= 'Z' then (c as int + 32) as char else c
  }

  /** strings.ToLower restricted to ASCII, which decides every comparison with "png". */
  function ToLower(s: string): string
  {
    seq(|s|, i requires 0 <= i < |s| => LowerChar(s[i]))
  }

  /** The extensions accepted are exactly the eight spellings of "png" in either case. */
  lemma PngExtensions(ext: string)
    ensures ToLower(ext) == "png" <==>
      |ext| == 3 && ext[0] in "pP" && ext[1] in "nN" && ext[2] in "gG"
  {
    var t := ToLower(ext);
    if t == "png" {
      assert t[0] == 'p' && t[1] == 'n' && t[2] == 'g';
    }
    if |ext| == 3 && ext[0] in "pP" && ext[1] in "nN" && ext[2] in "gG" {
      assert t[0] == 'p' && t[1] == 'n' && t[2] == 'g';
      assert t == "png";
    }
  }

  /**
   * The walk callback's filter: the page index of a file name, if the name
   * splits at its first '.' into a stem and an extension, the extension is
   * "png" in any case, and parseInt accepts the stem.
   */
  function AcceptName(name: string, parseInt: string -> Option<int>): (r: Option<int>)
    ensures '.' !in name ==> r == None
    ensures r.Some? ==> |name| >= 4 && name[|name| - 4] == '.' && IsPng(name[|name| - 3..])
  {
    match SplitFirstDot(name)
    case None => None
    case Some(parts) =>
      if !IsPng(parts.1) then None
      else
        assert |ToLower(parts.1)| == 3;
        assert name[|name| - 4] == '.' && name[|name| - 3..] == parts.1;
        parseInt(parts.0)
  }

  /** The extension test of the filter. */
  predicate IsPng(ext: string)
  {
    ToLower(ext) == "png"
  }

  /** name[i] is its first '.', the rest after it is a "png" extension, and the part before parses as n. */
  ghost predicate AcceptedAt(name: string, parseInt: string -> Option<int>, n: int, i: int)
  {
    && 0 <= i < |name| && name[i] == '.' && '.' !in name[..i]
    && IsPng(name[i + 1..]) && parseInt(name[..i]) == Some(n)
  }

  /** A name is accepted as page n exactly when its first '.' splits it into a stem parsing as n and a "png" extension. */
  lemma AcceptNameIff(name: string, parseInt: string -> Option<int>, n: int)
    ensures AcceptName(name, parseInt) == Some(n) <==> exists i :: AcceptedAt(name, parseInt, n, i)
  {
    if AcceptName(name, parseInt) == Some(n) {
      var r := SplitFirstDot(name);
      var i := |r.value.0|;
      assert name[..i] == r.value.0 && name[i] == '.' && name[i + 1..] == r.value.1;
      assert AcceptedAt(name, parseInt, n, i);
    }
    if exists i :: AcceptedAt(name, parseInt, n, i) {
      var i :| AcceptedAt(name, parseInt, n, i);
      assert name == name[..i] + "." + name[i + 1..];
      SplitFirstDotUnique(name, name[..i], name[i + 1..]);
    }
  }

  /** "1.x.png" splits into "1" and "x.png", so it is rejected whatever the parser says. */
  lemma DoubleExtensionRejected(parseInt: string -> Option<int>)
    ensures AcceptName("1.x.png", parseInt) == None
  {
    SplitFirstDotUnique("1.x.png", "1", "x.png");
    assert ToLower("x.png")[0] == 'x';
  }

  /** An upper-case extension is accepted. */
  lemma UpperCaseExtensionAccepted(parseInt: string -> Option<int>)
    requires parseInt("12") == Some(12)
    ensures AcceptName("12.PNG", parseInt) == Some(12)
  {
    SplitFirstDotUnique("12.PNG", "12", "PNG");
    assert ToLower("PNG") == "png";
  }

  /**
   * The files map the walk builds: each accepted (name, image) pair stores
   * its image under the name's index, a later file replacing an earlier one
   * with the same index.
   */
  function Collect<T>(entries: seq<(string, T)>, parseInt: string -> Option<int>): (files: map<int, T>)
    ensures forall n :: n in files <==>
      exists k :: 0 <= k < |entries| && AcceptName(entries[k].0, parseInt) == Some(n)
  {
    if |entries| == 0 then map[]
    else
      var files := Collect(entries[..|entries| - 1], parseInt);
      var last := entries[|entries| - 1];
      assert forall k :: 0 <= k < |entries| - 1 ==> entries[..|entries| - 1][k] == entries[k];
      match AcceptName(last.0, parseInt)
      case None => files
      case Some(n) => files[n := last.1]
  }

  /** Entry k is accepted as page n and no later entry is. */
  ghost predicate LastWithIndex<T>(entries: seq<(string, T)>, parseInt: string -> Option<int>, n: int, k: int)
  {
    && 0 <= k < |entries| && AcceptName(entries[k].0, parseInt) == Some(n)
    && forall k' :: k < k' < |entries| ==> AcceptName(entries[k'].0, parseInt) != Some(n)
  }

  /** The image under index n is the one of the last accepted file with that index. */
  lemma {:induction false} CollectKeepsLast<T>(entries: seq<(string, T)>, parseInt: string -> Option<int>, n: int)
    requires n in Collect(entries, parseInt)
    ensures exists k :: LastWithIndex(entries, parseInt, n, k) && Collect(entries, parseInt)[n] == entries[k].1
  {
    var pre := entries[..|entries| - 1];
    var last := entries[|entries| - 1];
    if AcceptName(last.0, parseInt) == Some(n) {
      assert Collect(entries, parseInt) == Collect(pre, parseInt)[n := last.1];
      assert LastWithIndex(entries, parseInt, n, |entries| - 1);
    } else {
      assert Collect(entries, parseInt)[n] == Collect(pre, parseInt)[n];
      CollectKeepsLast(pre, parseInt, n);
      var k :| LastWithIndex(pre, parseInt, n, k) && Collect(pre, parseInt)[n] == pre[k].1;
      LastWithIndexExtend(entries, parseInt, n, k);
    }
  }

  lemma LastWithIndexExtend<T>(entries: seq<(string, T)>, parseInt: string -> Option<int>, n: int, k: int)
    requires |entries| > 0 && LastWithIndex(entries[..|entries| - 1], parseInt, n, k)
    requires AcceptName(entries[|entries| - 1].0, parseInt) != Some(n)
    ensures LastWithIndex(entries, parseInt, n, k) && entries[k] == entries[..|entries| - 1][k]
  {
    var pre := entries[..|entries| - 1];
    forall k' | k < k' < |entries| ensures AcceptName(entries[k'].0, parseInt) != Some(n) {
      if k' < |pre| {
        assert entries[k'] == pre[k'];
      }
    }
  }

  // ---------------------------------------------------------------------------
  // Index assembly

  /** The indices a complete set of pages has: 0 .. n-1. */
  function Range(n: nat): (r: set<int>)
    ensures forall i :: i in r <==> 0 <= i < n
    ensures |r| == n
  {
    if n == 0 then {} else Range(n - 1) + {n - 1}
  }

  /** A subset as large as its superset is the superset. */
  lemma {:induction false} SubsetEqualSize<T>(a: set<T>, b: set<T>)
    requires a <= b && |a| == |b|
    ensures a == b
    decreases a
  {
    if a != {} {
      var x :| x in a;
      SubsetEqualSize(a - {x}, b - {x});
    }
  }

  /** Every index below the map's size is present exactly when the indices are 0 .. size-1. */
  lemma CompleteIffRange<T>(files: map<int, T>)
    ensures (forall i :: 0 <= i < |files| ==> i in files) <==> files.Keys == Range(|files|)
  {
    if forall i :: 0 <= i < |files| ==> i in files {
      SubsetEqualSize(Range(|files|), files.Keys);
    }
  }

  /**
   * The loop after the walk: a slot per collected index, slot i holding the
   * image stored under i, and the indices below the map's size that have no
   * image, in ascending order.  findImages fails with "missing images" when
   * that list is not empty, which happens exactly when the collected indices
   * are not 0 .. n-1.
   */
  method AssembleImages<T>(files: map<int, T>) returns (res: seq<Option<T>>, missing: seq<int>)
    ensures |res| == |files|
    ensures forall i :: 0 <= i < |res| ==> res[i] == (if i in files then Some(files[i]) else None)
    ensures forall j :: 0 <= j < |missing| ==> 0 <= missing[j] < |files| && missing[j] !in files
    ensures forall i :: 0 <= i < |files| && i !in files ==> i in missing
    ensures forall j, k :: 0 <= j < k < |missing| ==> missing[j] < missing[k]
    ensures missing == [] <==> files.Keys == Range(|files|)
  {
    var a := new Option<T>[|files|](_ => None);
    missing := [];
    var i := 0;
    while i < |files|
      invariant i <= |files|
      invariant forall j :: 0 <= j < i ==> a[j] == (if j in files then Some(files[j]) else None)
      invariant forall j :: i <= j < a.Length ==> a[j] == None
      invariant forall j :: 0 <= j < |missing| ==> 0 <= missing[j] < i && missing[j] !in files
      invariant forall j :: 0 <= j < i && j !in files ==> j in missing
      invariant forall j, k :: 0 <= j < k < |missing| ==> missing[j] < missing[k]
    {
      if i !in files {
        missing := missing + [i];
        i := i + 1;
        continue;
      }
      a[i] := Some(files[i]);
      i := i + 1;
    }
    res := a[..];
    CompleteIffRange(files);
    if missing != [] {
      assert missing[0] !in files;
    }
  }

  // ---------------------------------------------------------------------------
  // parseMetaData over a token stream

  /** html.TokenType. */
  datatype TokenType =
    | ErrorToken
    | TextToken
    | StartTagToken
    | EndTagToken
    | SelfClosingTagToken
    | CommentToken
    | DoctypeToken

  /** A token as the tokenizer delivers it: its type and its tag name or text. */
  datatype Token = Token(kind: TokenType, data: string)

  datatype Metadata = Metadata(Title: string, Composer: string)

  /** The type Next returns after p tokens have been consumed: an error once the input is used up. */
  function TypeAt(toks: seq<Token>, p: nat): TokenType
  {
    if p < |toks| then toks[p].kind else ErrorToken
  }

  /**
   * The tokenizer: a cursor over the tokens the input yields before it ends
   * or fails, and the error it then reports.  Once used up it returns
   * ErrorToken forever.
   */
  class Tokenizer {
    const tokens: seq<Token>
    const failure: string
    var pos: nat

    ghost predicate Valid()
      reads this
    {
      pos <= |tokens| && forall k :: 0 <= k < |tokens| ==> tokens[k].kind != ErrorToken
    }

    constructor(tokens: seq<Token>, failure: string)
      requires forall k :: 0 <= k < |tokens| ==> tokens[k].kind != ErrorToken
      ensures Valid() && this.tokens == tokens && this.failure == failure && pos == 0
    {
      this.tokens := tokens;
      this.failure := failure;
      pos := 0;
    }

    /** Next: the next token's type, consuming it; ErrorToken once the input is used up. */
    method Next() returns (tt: TokenType)
      requires Valid()
      modifies this
      ensures Valid()
      ensures tt == TypeAt(tokens, old(pos))
      ensures pos == if old(pos) < |tokens| then old(pos) + 1 else old(pos)
    {
      if pos < |tokens| {
        tt := tokens[pos].kind;
        pos := pos + 1;
      } else {
        tt := ErrorToken;
      }
    }

    /** TagName: the name of the tag token just returned, empty for any other token. */
    function TagName(): string
      reads this
    {
      if 0 < pos <= |tokens| && tokens[pos - 1].kind in {StartTagToken, EndTagToken, SelfClosingTagToken}
      then tokens[pos - 1].data else ""
    }

    /** Text: the text of the text, comment or doctype token just returned, empty for any other token. */
    function Text(): string
      reads this
    {
      if 0 < pos <= |tokens| && tokens[pos - 1].kind in {TextToken, CommentToken, DoctypeToken}
      then tokens[pos - 1].data else ""
    }

    /** Err: the error that ended the input. */
    function Err(): string
      reads this
    {
      failure
    }
  }

  /** The first position at or after p whose token is not text. */
  function SkipText(toks: seq<Token>, p: nat): (q: nat)
    ensures p <= q && TypeAt(toks, q) != TextToken
    ensures p <= |toks| ==> q <= |toks|
    ensures forall k :: p <= k < q ==> TypeAt(toks, k) == TextToken
    decreases |toks| - p
  {
    if TypeAt(toks, p) == TextToken then SkipText(toks, p + 1) else p
  }

  predicate IsStartTag(toks: seq<Token>, p: nat, name: string)
  {
    TypeAt(toks, p) == StartTagToken && toks[p].data == name
  }

  /** The outcome of one pass of parseMetaData's loop: the metadata, or the position the next pass starts at. */
  datatype Attempt = Found(meta: Metadata) | Resume(next: nat)

  /**
   * One pass of the loop starting at token p: a partial match that breaks
   * off resumes with the token after the one that broke it, never re-reading
   * an earlier one.
   */
  function AttemptAt(toks: seq<Token>, p: nat): (a: Attempt)
    requires p < |toks|
    ensures a.Resume? ==> p < a.next <= |toks| + 2
  {
    if !IsStartTag(toks, p, "span") then Resume(p + 1)
    else if TypeAt(toks, p + 1) != TextToken then Resume(p + 2)
    else if TypeAt(toks, p + 2) != EndTagToken then Resume(p + 3)
    else
      var q := SkipText(toks, p + 3);
      if !IsStartTag(toks, q, "h4") then Resume(q + 1)
      else if TypeAt(toks, q + 1) != TextToken then Resume(q + 2)
      else Found(Metadata(toks[q + 1].data, toks[p + 1].data))
  }

  /** What parseMetaData's loop returns once p tokens have been consumed. */
  function MatchFrom(toks: seq<Token>, failure: string, p: nat): Result<Metadata, string>
    decreases |toks| + 2 - p
  {
    if p >= |toks| then Err(failure)
    else
      match AttemptAt(toks, p)
      case Found(meta) => Ok(meta)
      case Resume(next) => MatchFrom(toks, failure, next)
  }

  /**
   * parseMetaData: scans for a <span> start tag, its text (the composer),
   * any end tag, any number of text tokens, an <h4> start tag and its text
   * (the title).
   */
  method ParseMetaData(z: Tokenizer) returns (r: Result<Metadata, string>)
    requires z.Valid()
    modifies z
    ensures r == MatchFrom(z.tokens, z.failure, old(z.pos))
  {
    ghost var goal := MatchFrom(z.tokens, z.failure, z.pos);
    while true
      invariant z.Valid()
      invariant MatchFrom(z.tokens, z.failure, z.pos) == goal
      decreases |z.tokens| - z.pos
    {
      ghost var p := z.pos;
      var tt := z.Next();
      if tt == ErrorToken {
        return Err(z.Err());
      }
      if tt != StartTagToken || z.TagName() != "span" {
        ResumeAt(z.tokens, z.failure, p, z.pos);
        continue;
      }
      var found := MatchPastSpan(z, p);
      if found.Some? {
        return Ok(found.value);
      }
      ResumeAt(z.tokens, z.failure, p, z.pos);
    }
  }

  /**
   * The rest of a pass once the <span> tag at p has been read: its text (the
   * composer), an end tag, any text tokens, <h4> and its text (the title).
   * Returns the metadata, or None where the loop goes on to its next pass,
   * the tokenizer then standing where that pass starts (or at the end of
   * the input).
   */
  method MatchPastSpan(z: Tokenizer, ghost p: nat) returns (found: Option<Metadata>)
    requires z.Valid() && p < |z.tokens| && z.pos == p + 1 && IsStartTag(z.tokens, p, "span")
    modifies z
    ensures z.Valid()
    ensures found.Some? ==> AttemptAt(z.tokens, p) == Found(found.value)
    ensures found.None? ==> AttemptAt(z.tokens, p).Resume?
    ensures found.None? ==> z.pos == AttemptAt(z.tokens, p).next || |z.tokens| <= z.pos <= AttemptAt(z.tokens, p).next
  {
    var tt := z.Next();
    if tt != TextToken {
      return None;
    }
    var composer := z.Text();
    tt := z.Next();
    if tt != EndTagToken {
      return None;
    }
    ghost var q := p + 3;
    tt := z.Next();
    while tt == TextToken
      invariant z.Valid() && p + 3 <= q && q < |z.tokens| + 1
      invariant tt == TypeAt(z.tokens, q) && z.pos == if q < |z.tokens| then q + 1 else |z.tokens|
      invariant SkipText(z.tokens, q) == SkipText(z.tokens, p + 3)
      decreases |z.tokens| - q
    {
      tt := z.Next();
      q := q + 1;
    }
    PastSpan(z.tokens, p, q);
    if tt != StartTagToken || z.TagName() != "h4" {
      return None;
    }
    tt := z.Next();
    if tt != TextToken {
      return None;
    }
    var title := z.Text();
    return Some(Metadata(title, composer));
  }

  /** After <span>, its text and an end tag, the pass continues at the first token after them that is not text. */
  lemma PastSpan(toks: seq<Token>, p: nat, q: nat)
    requires p + 2 < |toks| && IsStartTag(toks, p, "span")
    requires TypeAt(toks, p + 1) == TextToken && TypeAt(toks, p + 2) == EndTagToken
    requires TypeAt(toks, q) != TextToken && SkipText(toks, q) == SkipText(toks, p + 3)
    ensures SkipText(toks, p + 3) == q
    ensures !IsStartTag(toks, q, "h4") ==> AttemptAt(toks, p) == Resume(q + 1)
    ensures IsStartTag(toks, q, "h4") && TypeAt(toks, q + 1) != TextToken ==> AttemptAt(toks, p) == Resume(q + 2)
    ensures IsStartTag(toks, q, "h4") && TypeAt(toks, q + 1) == TextToken ==>
      AttemptAt(toks, p) == Found(Metadata(toks[q + 1].data, toks[p + 1].data))
  {
  }

  /**
   * A pass that breaks off leaves the result unchanged: the tokenizer stops
   * at the resume position, or at the end of the input when the pass ran
   * off it.
   */
  lemma ResumeAt(toks: seq<Token>, failure: string, p: nat, pos: nat)
    requires p < |toks| && AttemptAt(toks, p).Resume?
    requires pos == AttemptAt(toks, p).next || |toks| <= pos <= AttemptAt(toks, p).next
    ensures MatchFrom(toks, failure, pos) == MatchFrom(toks, failure, p)
  {
  }

  // ---------------------------------------------------------------------------
  // What parseMetaData finds

  /**
   * The pattern parseMetaData looks for, starting at s with the <h4> tag at
   * q: <span>, text, an end tag, text tokens from s + 3 up to q, <h4>, text.
   */
  ghost predicate PatternAt(toks: seq<Token>, s: nat, q: nat)
  {
    && s + 3 <= q && q + 1 < |toks|
    && IsStartTag(toks, s, "span") && toks[s + 1].kind == TextToken && toks[s + 2].kind == EndTagToken
    && (forall k :: s + 3 <= k < q ==> TypeAt(toks, k) == TextToken)
    && IsStartTag(toks, q, "h4") && toks[q + 1].kind == TextToken
  }

  /** Any failure is the tokenizer's own error: metadata is never made up and no other error arises. */
  lemma {:induction false} MatchErrIsFailure(toks: seq<Token>, failure: string, p: nat)
    ensures MatchFrom(toks, failure, p).Err? ==> MatchFrom(toks, failure, p).error == failure
    decreases |toks| + 2 - p
  {
    if p < |toks| && AttemptAt(toks, p).Resume? {
      MatchErrIsFailure(toks, failure, AttemptAt(toks, p).next);
    }
  }

  /** A pass that finds metadata has found the full pattern at p. */
  lemma FoundIsPattern(toks: seq<Token>, p: nat)
    requires p < |toks| && AttemptAt(toks, p).Found?
    ensures var q := SkipText(toks, p + 3);
      && PatternAt(toks, p, q)
      && AttemptAt(toks, p).meta == Metadata(toks[q + 1].data, toks[p + 1].data)
  {
  }

  /** Metadata is only returned for a full pattern at or after p: composer from the <span>, title from the <h4>. */
  lemma {:induction false} MatchSound(toks: seq<Token>, failure: string, p: nat)
    ensures MatchFrom(toks, failure, p).Ok? ==>
      exists s, q :: p <= s && PatternAt(toks, s, q)
        && MatchFrom(toks, failure, p).value == Metadata(toks[q + 1].data, toks[s + 1].data)
    decreases |toks| + 2 - p
  {
    if p < |toks| {
      if AttemptAt(toks, p).Resume? {
        MatchSound(toks, failure, AttemptAt(toks, p).next);
      } else {
        FoundIsPattern(toks, p);
      }
    }
  }

  /** A pattern starting exactly at p is matched there. */
  lemma MatchAtPattern(toks: seq<Token>, failure: string, p: nat, q: nat)
    requires PatternAt(toks, p, q)
    ensures MatchFrom(toks, failure, p) == Ok(Metadata(toks[q + 1].data, toks[p + 1].data))
  {
    SkipTextStopsAt(toks, p + 3, q);
  }

  /**
   * Completeness of the search: when a full pattern starts at the first
   * <span> at or after p, the search from p returns its metadata.
   */
  lemma {:induction false} FirstSpanFound(toks: seq<Token>, failure: string, p: nat, s: nat, q: nat)
    requires p <= s && PatternAt(toks, s, q)
    requires forall k :: p <= k < s ==> !IsStartTag(toks, k, "span")
    ensures MatchFrom(toks, failure, p) == Ok(Metadata(toks[q + 1].data, toks[s + 1].data))
    decreases s - p
  {
    if p < s {
      assert AttemptAt(toks, p) == Resume(p + 1);
      FirstSpanFound(toks, failure, p + 1, s, q);
    } else {
      MatchAtPattern(toks, failure, p, q);
    }
  }

  lemma {:induction false} SkipTextStopsAt(toks: seq<Token>, p: nat, q: nat)
    requires p <= q && TypeAt(toks, q) != TextToken
    requires forall k :: p <= k < q ==> TypeAt(toks, k) == TextToken
    ensures SkipText(toks, p) == q
    decreases q - p
  {
    if p < q {
      SkipTextStopsAt(toks, p + 1, q);
    }
  }

  /**
   * No backtracking: after <span> the next token must be text.  Here a
   * second <span> follows the first, so the first partial match breaks off
   * having consumed it, and the full pattern starting at the second <span>
   * is never seen.
   */
  lemma NoBacktracking(failure: string)
    ensures var toks := [Token(StartTagToken, "span"), Token(StartTagToken, "span"), Token(TextToken, "Bach"),
                         Token(EndTagToken, "span"), Token(StartTagToken, "h4"), Token(TextToken, "Air")];
      && PatternAt(toks, 1, 4)
      && MatchFrom(toks, failure, 0) == Err(failure)
  {
    var toks := [Token(StartTagToken, "span"), Token(StartTagToken, "span"), Token(TextToken, "Bach"),
                 Token(EndTagToken, "span"), Token(StartTagToken, "h4"), Token(TextToken, "Air")];
    assert AttemptAt(toks, 0) == Resume(2);
    assert AttemptAt(toks, 2) == Resume(3);
    assert AttemptAt(toks, 3) == Resume(4);
    assert AttemptAt(toks, 4) == Resume(5);
    assert AttemptAt(toks, 5) == Resume(6);
  }
}
