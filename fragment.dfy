/**
 * The fragment format: viewer parameters written as a path of key/value
 * pairs, such as `page/n5/mode/2up/search/cats`, with a bare page number
 * (`#37`) accepted as an older form. Also how parameters from the defaults,
 * the resume value and the URL are merged at start-up.
 *
 * The percent-encoding applied to a written fragment and the decoding of the
 * search term come from a utilities module that is not part of this model:
 * a written fragment is the path before encoding, and the decoder is a
 * parameter.
 */
module Fragment {
  import opened Js
  import opened Modes

  /** The parameters a fragment can carry; `None` is an absent key. */
  datatype Params = Params(
    index: Option<int>,
    page: Option<string>,
    mode: Option<int>,
    search: Option<string>,
    theme: Option<string>)

  const NoParams := Params(None, None, None, None, None)

  /** `Object.keys(params).length != 0`. */
  predicate HasKeys(p: Params) {
    p.index.Some? || p.page.Some? || p.mode.Some? || p.search.Some? || p.theme.Some?
  }

  // ---------------------------------------------------------------------
  // Splitting and joining on '/'

  /** `parts.join(sep)`. */
  function Join(parts: seq<string>, sep: char): string {
    if |parts| == 0 then ""
    else if |parts| == 1 then parts[0]
    else parts[0] + [sep] + Join(parts[1..], sep)
  }

  /** `s.split(sep)`: the pieces between separators; the empty string gives one empty piece. */
  function Split(s: string, sep: char): (parts: seq<string>)
    ensures |parts| >= 1
    ensures forall k :: 0 <= k < |parts| ==> sep !in parts[k]
  {
    if |s| == 0 then [""]
    else
      var rest := Split(s[1..], sep);
      if s[0] == sep then [""] + rest
      else [[s[0]] + rest[0]] + rest[1..]
  }

  /** Joining the pieces gives the string back. */
  lemma {:induction false} JoinSplit(s: string, sep: char)
    ensures Join(Split(s, sep), sep) == s
  {
    if |s| > 0 {
      JoinSplit(s[1..], sep);
      var rest := Split(s[1..], sep);
      if s[0] == sep {
        assert ([""] + rest)[1..] == rest;
      } else {
        var parts := [[s[0]] + rest[0]] + rest[1..];
        assert parts[1..] == rest[1..];
        if |rest| > 1 {
          assert rest[1..][1..] == rest[2..] && rest == [rest[0]] + rest[1..];
          assert Join(rest, sep) == rest[0] + [sep] + Join(rest[1..], sep);
        }
      }
    }
  }

  /** Splitting a join of pieces without separators gives the pieces back. */
  lemma {:induction false} SplitJoin(parts: seq<string>, sep: char)
    requires |parts| >= 1
    requires forall k :: 0 <= k < |parts| ==> sep !in parts[k]
    ensures Split(Join(parts, sep), sep) == parts
    decreases |parts|, |parts[0]|
  {
    var p := parts[0];
    if |p| == 0 {
      if |parts| > 1 {
        SplitJoin(parts[1..], sep);
        assert Join(parts, sep) == [sep] + Join(parts[1..], sep);
        assert (([sep] + Join(parts[1..], sep))[1..]) == Join(parts[1..], sep);
        assert [""] + parts[1..] == parts;
      }
    } else {
      var parts' := [p[1..]] + parts[1..];
      assert forall k :: 0 < k < |parts'| ==> parts'[k] == parts[k];
      assert sep !in p[1..] by {
        forall j | 0 <= j < |p[1..]|
          ensures p[1..][j] != sep
        {
          assert p[1..][j] == p[j + 1];
        }
      }
      SplitJoin(parts', sep);
      assert parts'[1..] == parts[1..];
      var s := Join(parts, sep);
      if |parts| == 1 {
        assert s[1..] == Join(parts', sep);
      } else {
        assert s == p + [sep] + Join(parts[1..], sep);
        assert s[1..] == p[1..] + [sep] + Join(parts[1..], sep);
      }
      assert s[0] == p[0];
      assert [p[0]] + p[1..] == p;
      assert [p] + parts[1..] == parts;
    }
  }

  // ---------------------------------------------------------------------
  // Numbers in text

  predicate IsDigit(c: char) {
    '0' <= c <= '9'
  }

  /** The `/^\d+$/` test: one or more decimal digits and nothing else. */
  predicate AllDigits(s: string) {
    |s| > 0 && forall k :: 0 <= k < |s| ==> IsDigit(s[k])
  }

  /** `parseInt` of a string of digits. */
  function DecimalValue(s: string): (n: nat)
    requires forall k :: 0 <= k < |s| ==> IsDigit(s[k])
  {
    if |s| == 0 then 0 else 10 * DecimalValue(s[..|s| - 1]) + DigitValue(s[|s| - 1])
  }

  function DigitValue(c: char): nat
    requires IsDigit(c)
  {
    c as int - '0' as int
  }

  /** The decimal text of a natural number, as JavaScript writes an integer. */
  function Digits(n: nat): (s: string)
    ensures AllDigits(s)
  {
    var d := ['0' + (n % 10) as char];
    if n < 10 then d else Digits(n / 10) + d
  }

  /** `'' + i` for an integer `i`. */
  function NumberText(i: int): string {
    if i < 0 then "-" + Digits(-i) else Digits(i)
  }

  /** Reading back the decimal text of a number gives the number. */
  lemma {:induction false} DigitsValue(n: nat)
    ensures DecimalValue(Digits(n)) == n
  {
    var d := ['0' + (n % 10) as char];
    if n >= 10 {
      DigitsValue(n / 10);
      var s := Digits(n / 10) + d;
      assert s[..|s| - 1] == Digits(n / 10);
    }
  }

  // ---------------------------------------------------------------------
  // Key/value pairs

  /** `urlArray[i]`, or `undefined` past the end. */
  function At(a: seq<string>, i: int): Option<string> {
    if 0 <= i < |a| then Some(a[i]) else None
  }

  /**
   * The `urlHash` built from the pairs starting at the even positions before
   * `n`: each key is set to the piece after it, or to `undefined` when the
   * key is the last piece, a later pair overwriting an earlier one.
   */
  function HashUpTo(a: seq<string>, n: int): map<string, Option<string>>
    requires n % 2 == 0 && n <= |a| + 1
    decreases n
  {
    if n <= 0 then map[] else HashUpTo(a, n - 2)[a[n - 2] := At(a, n - 1)]
  }

  /** The `urlHash` of the whole split fragment. */
  function Hash(a: seq<string>): map<string, Option<string>> {
    HashUpTo(a, |a| + |a| % 2)
  }

  /** A key of the hash is a piece at an even position. */
  lemma {:induction false} HashKeys(a: seq<string>, n: int, key: string)
    requires n % 2 == 0 && n <= |a| + 1
    ensures key in HashUpTo(a, n) <==> exists i :: 0 <= i < n && i % 2 == 0 && a[i] == key
    decreases n
  {
    if n > 0 {
      HashKeys(a, n - 2, key);
      if key in HashUpTo(a, n) && key !in HashUpTo(a, n - 2) {
        assert a[n - 2] == key;
      }
    }
  }

  /**
   * The last duplicate wins: a key takes the piece after its last occurrence
   * at an even position.
   */
  lemma {:induction false} HashLastWins(a: seq<string>, n: int, i: int)
    requires n % 2 == 0 && n <= |a| + 1
    requires 0 <= i < n && i % 2 == 0
    requires forall j :: i < j < n && j % 2 == 0 ==> a[j] != a[i]
    ensures a[i] in HashUpTo(a, n) && HashUpTo(a, n)[a[i]] == At(a, i + 1)
    decreases n
  {
    if i < n - 2 {
      HashLastWins(a, n - 2, i);
    }
  }

  /** One more pair at the end of an even-length list sets its key. */
  lemma HashSnocPair(a: seq<string>, key: string, value: string)
    requires |a| % 2 == 0
    ensures Hash(a + [key, value]) == Hash(a)[key := Some(value)]
  {
    var b := a + [key, value];
    HashPrefix(a, b, |a|);
  }

  lemma {:induction false} HashPrefix(a: seq<string>, b: seq<string>, n: int)
    requires n % 2 == 0 && n <= |a| && |a| <= |b| && a == b[..|a|]
    ensures HashUpTo(a, n) == HashUpTo(b, n)
    decreases n
  {
    if n > 0 {
      HashPrefix(a, b, n - 2);
      assert a[n - 2] == b[n - 2] && a[n - 1] == b[n - 1];
    }
  }

  // ---------------------------------------------------------------------
  // Reading a fragment

  /** The mode a fragment's `mode` value names, if any. */
  function ModeOf(value: Option<string>): Option<int> {
    if value == Some("1up") then Some(Mode1Up)
    else if value == Some("2up") then Some(Mode2Up)
    else if value == Some("thumb") then Some(ModeThumb)
    else None
  }

  /** A hash entry that is present and not `undefined`. */
  function Lookup(h: map<string, Option<string>>, key: string): Option<string> {
    if key in h then h[key] else None
  }

  /** The fragment without one leading '#'. */
  function StripHash(fragment: string): string {
    if |fragment| > 0 && fragment[0] == '#' then fragment[1..] else fragment
  }

  /** The parameters of a split fragment's hash. */
  function ParamsOfHash(h: map<string, Option<string>>, decode: string -> string): Params {
    var search := Lookup(h, "search");
    Params(
      None,
      Lookup(h, "page"),
      ModeOf(Lookup(h, "mode")),
      if search.Some? then Some(decode(search.value)) else None,
      Lookup(h, "theme"))
  }

  /**
   * `paramsFromFragment` as a definition: after an optional '#', a bare
   * number is a page index and nothing else; otherwise the key/value pairs
   * give the page, the mode (only the three names), the decoded search term
   * and the theme.
   */
  function FragmentParams(fragment: string, decode: string -> string): Params {
    var f := StripHash(fragment);
    if AllDigits(f) then NoParams.(index := Some(DecimalValue(f)))
    else ParamsOfHash(Hash(Split(f, '/')), decode)
  }

  /**
   * `paramsFromFragment`: the pairing loop fills `urlHash` two pieces at a
   * time.
   */
  method ParamsFromFragment(fragment: string, decode: string -> string) returns (params: Params)
    ensures params == FragmentParams(fragment, decode)
  {
    var f := StripHash(fragment);
    if AllDigits(f) {
      return NoParams.(index := Some(DecimalValue(f)));
    }
    var urlArray := Split(f, '/');
    var urlHash: map<string, Option<string>> := map[];
    var i := 0;
    while i < |urlArray|
      invariant i % 2 == 0 && i <= |urlArray| + 1
      invariant urlHash == HashUpTo(urlArray, i)
    {
      urlHash := urlHash[urlArray[i] := At(urlArray, i + 1)];
      i := i + 2;
    }
    params := ParamsOfHash(urlHash, decode);
  }

  /** The bare-number form: a fragment of digits is the page index it spells. */
  lemma OldStyleIndex(n: nat, decode: string -> string)
    ensures FragmentParams(Digits(n), decode) == NoParams.(index := Some(n))
    ensures FragmentParams("#" + Digits(n), decode) == NoParams.(index := Some(n))
  {
    DigitsValue(n);
    assert ("#" + Digits(n))[1..] == Digits(n);
  }

  // ---------------------------------------------------------------------
  // Writing a fragment

  /** The name a mode is written with, if it is one of the three. */
  function ModeName(mode: int): Option<string> {
    if mode == Mode1Up then Some("1up")
    else if mode == Mode2Up then Some("2up")
    else if mode == ModeThumb then Some("thumb")
    else None
  }

  /**
   * The `page` pair: the page string, else `n` and the index, else nothing.
   * The value is written through the encoder; the key is left as it is.
   */
  function PagePair(p: Params, encode: string -> string): seq<string> {
    if p.page.Some? then ["page", encode(p.page.value)]
    else if p.index.Some? then ["page", encode("n" + NumberText(p.index.value))]
    else []
  }

  /** The `search` pair: a non-empty term, and only in the `hash` URL mode; the term is encoded. */
  function SearchPair(p: Params, urlMode: string, encode: string -> string): seq<string> {
    if p.search.Some? && p.search.value != "" && urlMode == "hash" then ["search", encode(p.search.value)] else []
  }

  /**
   * `fragmentFromParams`: the page (or `n` and the index), the mode, then the
   * search term, joined with '/'; an unknown mode throws. `encode` is
   * `encodeURIComponentPlus` followed by turning `%2F` back into '/', as it
   * acts on one piece: the source encodes the joined path, and since that
   * encoder works character by character and the separators come back as
   * '/', this is the same as joining the encoded pieces. The keys and the
   * mode names are letters and digits, which the encoder leaves unchanged,
   * so only the values pass through `encode`.
   */
  function FragmentFromParams(p: Params, urlMode: string, encode: string -> string): (r: Result<string>)
    ensures r.Throws? <==> p.mode.Some? && ModeName(p.mode.value).None?
  {
    if p.mode.Some? && ModeName(p.mode.value).None? then
      Throws("fragmentFromParams called with unknown mode " + NumberText(p.mode.value))
    else
      Ok(Join(PagePair(p, encode) + ModePair(p) + SearchPair(p, urlMode, encode), '/'))
  }

  /** The `mode` pair, for a mode that has a name. */
  function ModePair(p: Params): seq<string> {
    if p.mode.Some? && ModeName(p.mode.value).Some? then ["mode", ModeName(p.mode.value).value] else []
  }

  lemma ModeNameRoundTrip(mode: int)
    requires ModeName(mode).Some?
    ensures ModeOf(ModeName(mode)) == Some(mode)
  {
  }

  /** A value that survives the path format: no '/' in it. */
  predicate PathSafe(s: string) {
    '/' !in s
  }

  /**
   * Writing then reading: the mode comes back; the page comes back as the
   * encoded page string (an index as the encoded `n<index>`), because the
   * reader copies the page without decoding it, so a page string comes back
   * unchanged exactly when the encoder leaves it unchanged; the search term
   * comes back when it was written and decoding undoes encoding on it. The
   * index and the theme are not written.
   */
  lemma FragmentRoundTrip(p: Params, urlMode: string, encode: string -> string, decode: string -> string)
    requires p.mode.Some? ==> ModeName(p.mode.value).Some?
    requires p.page.Some? ==> PathSafe(encode(p.page.value))
    requires p.page.None? && p.index.Some? ==> PathSafe(encode("n" + NumberText(p.index.value)))
    requires p.search.Some? ==> PathSafe(encode(p.search.value)) && decode(encode(p.search.value)) == p.search.value
    ensures FragmentFromParams(p, urlMode, encode).Ok?
    ensures var q := FragmentParams(FragmentFromParams(p, urlMode, encode).value, decode);
            && q.index.None? && q.theme.None?
            && q.mode == p.mode
            && q.page == (if p.page.Some? then Some(encode(p.page.value))
                          else if p.index.Some? then Some(encode("n" + NumberText(p.index.value)))
                          else None)
            && (p.page.Some? ==> (q.page == p.page <==> encode(p.page.value) == p.page.value))
            && q.search == (if p.search.Some? && p.search.value != "" && urlMode == "hash" then p.search else None)
  {
    var pg, md, sr := PagePair(p, encode), ModePair(p), SearchPair(p, urlMode, encode);
    assert FragmentFromParams(p, urlMode, encode) == Ok(Join(pg + md + sr, '/'));
    ReadBack(pg, md, sr, decode);
  }

  /** Reading a written path of pairs gives each pair's value. */
  lemma ReadBack(pg: seq<string>, md: seq<string>, sr: seq<string>, decode: string -> string)
    requires |pg| == 0 || (|pg| == 2 && pg[0] == "page" && PathSafe(pg[1]))
    requires |md| == 0 || (|md| == 2 && md[0] == "mode" && PathSafe(md[1]))
    requires |sr| == 0 || (|sr| == 2 && sr[0] == "search" && PathSafe(sr[1]))
    ensures FragmentParams(Join(pg + md + sr, '/'), decode)
            == Params(None,
                      if |pg| == 2 then Some(pg[1]) else None,
                      if |md| == 2 then ModeOf(Some(md[1])) else None,
                      if |sr| == 2 then Some(decode(sr[1])) else None,
                      None)
  {
    ReadPairs(pg, md, sr, decode);
    HashPairs(pg, md, sr);
  }

  /** A written path of pairs is read through its hash (it is neither a bare number nor '#'-led). */
  lemma ReadPairs(pg: seq<string>, md: seq<string>, sr: seq<string>, decode: string -> string)
    requires |pg| == 0 || (|pg| == 2 && pg[0] == "page" && PathSafe(pg[1]))
    requires |md| == 0 || (|md| == 2 && md[0] == "mode" && PathSafe(md[1]))
    requires |sr| == 0 || (|sr| == 2 && sr[0] == "search" && PathSafe(sr[1]))
    ensures FragmentParams(Join(pg + md + sr, '/'), decode) == ParamsOfHash(Hash(pg + md + sr), decode)
  {
    var parts := pg + md + sr;
    if |parts| == 0 {
      ReadEmpty(decode);
    } else {
      var f := Join(parts, '/');
      assert parts[0] == "page" || parts[0] == "mode" || parts[0] == "search";
      PartsSafe(pg, md, sr);
      SplitJoin(parts, '/');
      JoinHead(parts, '/');
      ReadPath(f, parts, decode);
    }
  }

  lemma PartsSafe(pg: seq<string>, md: seq<string>, sr: seq<string>)
    requires |pg| == 0 || (|pg| == 2 && pg[0] == "page" && PathSafe(pg[1]))
    requires |md| == 0 || (|md| == 2 && md[0] == "mode" && PathSafe(md[1]))
    requires |sr| == 0 || (|sr| == 2 && sr[0] == "search" && PathSafe(sr[1]))
    ensures forall k :: 0 <= k < |pg + md + sr| ==> '/' !in (pg + md + sr)[k]
  {
    assert PathSafe("page") && PathSafe("mode") && PathSafe("search");
    var parts := pg + md + sr;
    forall k | 0 <= k < |parts|
      ensures PathSafe(parts[k])
    {
      if k < |pg| {
        assert parts[k] == pg[k];
      } else if k < |pg| + |md| {
        assert parts[k] == md[k - |pg|];
      } else {
        assert parts[k] == sr[k - |pg| - |md|];
      }
    }
  }

  lemma ReadEmpty(decode: string -> string)
    ensures FragmentParams(Join([], '/'), decode) == ParamsOfHash(Hash([]), decode)
  {
    assert Split("", '/') == [""];
    assert Hash([""]) == map["" := None];
  }

  /** A path that starts with a letter is read through the hash of its pieces. */
  lemma ReadPath(f: string, parts: seq<string>, decode: string -> string)
    requires |f| > 0 && 'a' <= f[0] <= 'z' && Split(f, '/') == parts
    ensures FragmentParams(f, decode) == ParamsOfHash(Hash(parts), decode)
  {
    assert StripHash(f) == f;
    assert !AllDigits(f);
  }

  /** A joined path starts with its first piece. */
  lemma JoinHead(parts: seq<string>, sep: char)
    requires |parts| >= 1 && |parts[0]| >= 1
    ensures |Join(parts, sep)| >= 1 && Join(parts, sep)[0] == parts[0][0]
  {
    if |parts| > 1 {
      assert Join(parts, sep) == parts[0] + [sep] + Join(parts[1..], sep);
    }
  }

  /** The hash of the written pairs maps each written key to its value. */
  lemma HashPairs(pg: seq<string>, md: seq<string>, sr: seq<string>)
    requires |pg| == 0 || (|pg| == 2 && pg[0] == "page")
    requires |md| == 0 || (|md| == 2 && md[0] == "mode")
    requires |sr| == 0 || (|sr| == 2 && sr[0] == "search")
    ensures var h := Hash(pg + md + sr);
            && Lookup(h, "page") == (if |pg| == 2 then Some(pg[1]) else None)
            && Lookup(h, "mode") == (if |md| == 2 then Some(md[1]) else None)
            && Lookup(h, "search") == (if |sr| == 2 then Some(sr[1]) else None)
            && Lookup(h, "theme") == None
  {
    assert Hash([]) == map[];
    if |pg| == 2 {
      HashSnocPair([], pg[0], pg[1]);
      assert [] + [pg[0], pg[1]] == pg;
    }
    if |md| == 2 {
      HashSnocPair(pg, md[0], md[1]);
      assert pg + [md[0], md[1]] == pg + md;
    } else {
      assert pg + md == pg;
    }
    if |sr| == 2 {
      HashSnocPair(pg + md, sr[0], sr[1]);
      assert pg + md + [sr[0], sr[1]] == pg + md + sr;
    } else {
      assert pg + md + sr == pg + md;
    }
  }

  // ---------------------------------------------------------------------
  // Merging parameters

  /**
   * The index a set of new parameters installs: the page string when the
   * book can read it as an index, else an explicit index, else none.
   */
  function IndexFrom(newParams: Params, parsePageString: string -> Option<int>): Option<int> {
    if newParams.page.Some? && parsePageString(newParams.page.value).Some? then parsePageString(newParams.page.value)
    else newParams.index
  }

  /**
   * `extendParams`: the new page string is turned into an index when the
   * book can read it and is never copied; every other new value that is not
   * `undefined` overwrites the old one.
   */
  function ExtendParams(params: Params, newParams: Params, parsePageString: string -> Option<int>): (r: Params)
    ensures r.page == params.page
    ensures r.index == (if IndexFrom(newParams, parsePageString).Some? then IndexFrom(newParams, parsePageString) else params.index)
    ensures newParams.mode.Some? ==> r.mode == newParams.mode
    ensures newParams.mode.None? ==> r.mode == params.mode
    ensures r.search == if newParams.search.Some? then newParams.search else params.search
    ensures r.theme == if newParams.theme.Some? then newParams.theme else params.theme
  {
    var index :=
      if newParams.page.Some? && parsePageString(newParams.page.value).Some? then parsePageString(newParams.page.value)
      else newParams.index;
    Params(
      if index.Some? then index else params.index,
      params.page,
      if newParams.mode.Some? then newParams.mode else params.mode,
      if newParams.search.Some? then newParams.search else params.search,
      if newParams.theme.Some? then newParams.theme else params.theme)
  }

  /** Merging parameters that carry nothing changes nothing. */
  lemma ExtendNothing(params: Params, parsePageString: string -> Option<int>)
    ensures ExtendParams(params, NoParams, parsePageString) == params
  {
  }

  /** What start-up reads from outside: the book, the options, the cookie and the URL. */
  datatype StartUp = StartUp(
    titleLeaf: Option<int>,
    numLeafs: int,
    leafNumToIndex: int -> int,
    /** The `defaults` fragment; the empty string when not set. */
    defaults: string,
    enablePageResume: bool,
    resumeValue: Option<int>,
    enableUrlPlugin: bool,
    urlFragment: string,
    urlHashFragment: string,
    urlMode: string,
    parsePageString: string -> Option<int>,
    decode: string -> string)

  /** The result of `initParams`: the merged parameters and its two flags. */
  datatype InitParams = InitParams(params: Params, pageFound: bool, fragmentChange: bool)

  /** The title leaf's index when there is one and the book has more than two leaves, else 0. */
  function DefaultIndex(s: StartUp): int {
    if s.titleLeaf.Some? && s.numLeafs > 2 then s.leafNumToIndex(s.titleLeaf.value) else 0
  }

  /** The URL's parameters: the fragment's, or, in `history` mode when it has none, the hash's. */
  function UrlParams(s: StartUp): Params {
    var urlParams := FragmentParams(s.urlFragment, s.decode);
    if !HasKeys(urlParams) && s.urlHashFragment != "" && s.urlMode == "history"
    then FragmentParams(s.urlHashFragment, s.decode)
    else urlParams
  }

  /**
   * `initParams` up to its search handling: the title leaf, then the
   * defaults, then the resume value, then the URL, each later source
   * overriding the earlier ones.
   */
  function InitialParams(s: StartUp): (r: InitParams) {
    var p0 := NoParams.(index := Some(DefaultIndex(s)));
    var defaultParams := FragmentParams(s.defaults, s.decode);
    var p1 := if s.defaults != "" then ExtendParams(p0, defaultParams, s.parsePageString) else p0;
    var found1 := s.defaults != "" && defaultParams.page.Some?;
    var resumed := s.enablePageResume && s.resumeValue.Some?;
    var p2 := if resumed then p1.(index := s.resumeValue) else p1;
    var change2 := resumed && p1.index != s.resumeValue;
    var urlParams := UrlParams(s);
    var fromUrl := s.enableUrlPlugin && HasKeys(urlParams);
    if fromUrl then InitParams(ExtendParams(p2, urlParams, s.parsePageString), found1 || urlParams.page.Some?, true)
    else InitParams(p2, found1, change2)
  }

  /**
   * The precedence of start-up sources: the URL's index when it gives one,
   * else the resume value, else the defaults' index, else the title leaf's
   * index or 0.
   */
  lemma InitIndexPrecedence(s: StartUp)
    ensures var r := InitialParams(s);
            var fromUrl := s.enableUrlPlugin && HasKeys(UrlParams(s));
            var fromDefaults := if s.defaults != "" then IndexFrom(FragmentParams(s.defaults, s.decode), s.parsePageString) else None;
            r.params.index ==
              if fromUrl && IndexFrom(UrlParams(s), s.parsePageString).Some? then IndexFrom(UrlParams(s), s.parsePageString)
              else if s.enablePageResume && s.resumeValue.Some? then s.resumeValue
              else if fromDefaults.Some? then fromDefaults
              else Some(DefaultIndex(s))
  {
  }

  /**
   * A page was found exactly when the defaults or the applied URL carried a
   * page string; the fragment is to change exactly when URL parameters were
   * applied or the resume value moved the index.
   */
  lemma InitFlags(s: StartUp)
    ensures var r := InitialParams(s);
            var fromUrl := s.enableUrlPlugin && HasKeys(UrlParams(s));
            var p1index := if s.defaults != "" && IndexFrom(FragmentParams(s.defaults, s.decode), s.parsePageString).Some?
                           then IndexFrom(FragmentParams(s.defaults, s.decode), s.parsePageString)
                           else Some(DefaultIndex(s));
            && (r.pageFound <==> (s.defaults != "" && FragmentParams(s.defaults, s.decode).page.Some?)
                                 || (fromUrl && UrlParams(s).page.Some?))
            && (r.fragmentChange <==> fromUrl || (s.enablePageResume && s.resumeValue.Some? && p1index != s.resumeValue))
  {
  }
}
