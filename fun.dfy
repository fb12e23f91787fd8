/** The functional helpers of main/libs/fun.py: case conversion of identifiers,
    flattening, key filtering and re-keying of dictionaries, and a call wrapper
    that swallows exceptions. Every helper is pure. Strings are restricted to
    ASCII case semantics. */
module Fun {
  import opened Outcomes

  // ---------------------------------------------------------------------------
  // ASCII characters

  predicate IsUpper(c: char) { 'A' <= c <= 'Z' }
  predicate IsLower(c: char) { 'a' <= c <= 'z' }
  /** A cased character in the sense of `str.title()`, restricted to ASCII. */
  predicate IsLetter(c: char) { IsUpper(c) || IsLower(c) }

  /** `str.upper()` on one ASCII character. */
  function Upper(c: char): (r: char)
    ensures !IsLower(r) && IsLetter(r) == IsLetter(c)
    ensures !IsLower(c) ==> r == c
  {
    if IsLower(c) then (c as int - 32) as char else c
  }

  /** `str.lower()` on one ASCII character. */
  function Lower(c: char): (r: char)
    ensures !IsUpper(r) && IsLetter(r) == IsLetter(c)
    ensures !IsUpper(c) ==> r == c
    ensures IsUpper(c) ==> Upper(r) == c
  {
    if IsUpper(c) then (c as int + 32) as char else c
  }

  /** `str.lower()` on an ASCII string: lower-cases every character in place. */
  function LowerAscii(s: string): (r: string)
    ensures |r| == |s|
    ensures forall i :: 0 <= i < |s| ==> r[i] == Lower(s[i])
  {
    seq(|s|, i requires 0 <= i < |s| => Lower(s[i]))
  }

  lemma LowerAsciiAppend(a: string, b: string)
    ensures LowerAscii(a + b) == LowerAscii(a) + LowerAscii(b)
  {
    assert forall i :: 0 <= i < |a + b| ==> LowerAscii(a + b)[i] == (LowerAscii(a) + LowerAscii(b))[i];
  }

  /** Number of upper-case letters in `s`. */
  function CountUpper(s: string): nat {
    if s == [] then 0 else (if IsUpper(s[0]) then 1 else 0) + CountUpper(s[1..])
  }

  /** Number of occurrences of `c` in `s`. */
  function Count(s: string, c: char): nat {
    if s == [] then 0 else (if s[0] == c then 1 else 0) + Count(s[1..], c)
  }

  // ---------------------------------------------------------------------------
  // camel_to_snake

  /** The substitution on the characters after index 0: every upper-case letter is
      preceded by the zero-width match of `(?=[A-Z])`, replaced by "_". */
  function UnderscoreBeforeUpper(t: string): string {
    if t == [] then []
    else (if IsUpper(t[0]) then ['_', t[0]] else [t[0]]) + UnderscoreBeforeUpper(t[1..])
  }

  /** `re.sub(r"(?<!^)(?=[A-Z])", "_", s)`: the look-behind `(?<!^)` rules out index 0. */
  function InsertUnderscores(s: string): string {
    if s == [] then [] else [s[0]] + UnderscoreBeforeUpper(s[1..])
  }

  /** `camel_to_snake(name)`: the substitution above, then `.lower()`. */
  function CamelToSnake(name: string): (r: string)
    ensures forall i :: 0 <= i < |r| ==> !IsUpper(r[i])
  {
    LowerAscii(InsertUnderscores(name))
  }

  lemma {:induction false} UnderscoreBeforeUpperLength(t: string)
    ensures |UnderscoreBeforeUpper(t)| == |t| + CountUpper(t)
  {
    if t != [] {
      UnderscoreBeforeUpperLength(t[1..]);
    }
  }

  /** One underscore is added per upper-case letter at index 1 or later. */
  lemma CamelToSnakeLength(name: string)
    ensures name == [] ==> CamelToSnake(name) == []
    ensures name != [] ==> |CamelToSnake(name)| == |name| + CountUpper(name[1..])
  {
    if name != [] {
      UnderscoreBeforeUpperLength(name[1..]);
    }
  }

  lemma InsertUnderscoresCons(c: char, t: string)
    ensures InsertUnderscores([c] + t) == [c] + UnderscoreBeforeUpper(t)
  {
    assert ([c] + t)[1..] == t;
  }

  lemma {:induction false} UnderscoreBeforeUpperNoUpper(t: string)
    requires forall i :: 0 <= i < |t| ==> !IsUpper(t[i])
    ensures UnderscoreBeforeUpper(t) == t
  {
    if t != [] {
      UnderscoreBeforeUpperNoUpper(t[1..]);
    }
  }

  /** The substitution works character by character, so it distributes over concatenation. */
  lemma {:induction false} UnderscoreBeforeUpperAppend(a: string, b: string)
    ensures UnderscoreBeforeUpper(a + b) == UnderscoreBeforeUpper(a) + UnderscoreBeforeUpper(b)
  {
    if a == [] {
      assert a + b == b;
    } else {
      assert (a + b)[0] == a[0];
      assert (a + b)[1..] == a[1..] + b;
      UnderscoreBeforeUpperAppend(a[1..], b);
    }
  }

  /** An upper-case letter followed by lower-case letters gets one underscore, in front. */
  lemma UnderscoresInWord(c: char, t: string)
    requires IsUpper(c)
    requires forall i :: 0 <= i < |t| ==> !IsUpper(t[i])
    ensures UnderscoreBeforeUpper([c] + t) == ['_', c] + t
  {
    assert ([c] + t)[1..] == t;
    UnderscoreBeforeUpperNoUpper(t);
  }

  /** Two words, the second capitalised: one underscore between them and none in front. */
  lemma InsertUnderscoresTwoWords(c: char, w: string, d: char, v: string)
    requires IsUpper(d)
    requires forall i :: 0 <= i < |w| ==> !IsUpper(w[i])
    requires forall i :: 0 <= i < |v| ==> !IsUpper(v[i])
    ensures InsertUnderscores([c] + w + [d] + v) == [c] + w + ['_', d] + v
  {
    assert [c] + w + [d] + v == [c] + (w + ([d] + v));
    InsertUnderscoresCons(c, w + ([d] + v));
    UnderscoreBeforeUpperAppend(w, [d] + v);
    UnderscoreBeforeUpperNoUpper(w);
    UnderscoresInWord(d, v);
  }

  /** A single capitalised word, such as `Client`, is only lower-cased: no underscore goes in
      front of its first letter. */
  lemma CamelToSnakeOneWord(c: char, w: string)
    requires forall i :: 0 <= i < |w| ==> !IsUpper(w[i])
    ensures CamelToSnake([c] + w) == LowerAscii([c] + w)
  {
    InsertUnderscoresCons(c, w);
    UnderscoreBeforeUpperNoUpper(w);
  }

  /** Two words, the second capitalised, such as `DnsClient`: the key is the first word
      lower-cased, "_", and the second word lower-cased (`dns_client`). */
  lemma CamelToSnakeTwoWords(c: char, w: string, d: char, v: string)
    requires IsUpper(d)
    requires forall i :: 0 <= i < |w| ==> !IsUpper(w[i])
    requires forall i :: 0 <= i < |v| ==> !IsUpper(v[i])
    ensures CamelToSnake([c] + w + [d] + v) == LowerAscii([c] + w) + ['_', Lower(d)] + LowerAscii(v)
  {
    InsertUnderscoresTwoWords(c, w, d, v);
    LowerAsciiAppend([c] + w, ['_', d] + v);
    LowerAsciiAppend(['_', d], v);
    assert LowerAscii(['_', d]) == ['_', Lower(d)];
  }

  /** A run of upper-case letters, such as the acronym in `DNSClient`, gets an underscore
      before each of its letters. */
  lemma {:induction false} UnderscoresInAcronym(u: string)
    requires forall i :: 0 <= i < |u| ==> IsUpper(u[i])
    ensures |UnderscoreBeforeUpper(u)| == 2 * |u|
    ensures forall i :: 0 <= i < |u| ==>
      UnderscoreBeforeUpper(u)[2 * i] == '_' && UnderscoreBeforeUpper(u)[2 * i + 1] == u[i]
  {
    if u != [] {
      var rest := UnderscoreBeforeUpper(u[1..]);
      UnderscoresInAcronym(u[1..]);
      assert UnderscoreBeforeUpper(u) == ['_', u[0]] + rest;
      forall i | 1 <= i < |u|
        ensures UnderscoreBeforeUpper(u)[2 * i] == '_' && UnderscoreBeforeUpper(u)[2 * i + 1] == u[i]
      {
        assert u[1..][i - 1] == u[i];
        assert rest[2 * (i - 1)] == '_' && rest[2 * (i - 1) + 1] == u[i];
      }
    }
  }

  /** A name already in snake_case is its own key: camel_to_snake is idempotent. */
  lemma CamelToSnakeIdempotent(name: string)
    ensures CamelToSnake(CamelToSnake(name)) == CamelToSnake(name)
  {
    var s := CamelToSnake(name);
    if s != [] {
      UnderscoreBeforeUpperNoUpper(s[1..]);
      assert InsertUnderscores(s) == s;
    }
    assert LowerAscii(s) == s;
  }

  // ---------------------------------------------------------------------------
  // snake_to_camel

  /** `s.split("_")`: never empty, and "" splits into [""]. */
  function Split(s: string): (r: seq<string>)
    ensures |r| == Count(s, '_') + 1
    ensures forall i :: 0 <= i < |r| ==> '_' !in r[i]
  {
    if s == [] then [[]]
    else
      var rest := Split(s[1..]);
      if s[0] == '_' then [[]] + rest else [[s[0]] + rest[0]] + rest[1..]
  }

  /** `"_".join(ws)`. */
  function JoinUnderscore(ws: seq<string>): string {
    if |ws| == 0 then []
    else if |ws| == 1 then ws[0]
    else ws[0] + "_" + JoinUnderscore(ws[1..])
  }

  /** Splitting on "_" loses nothing: joining the pieces with "_" gives the input back. */
  lemma {:induction false} SplitJoin(s: string)
    ensures JoinUnderscore(Split(s)) == s
  {
    if s != [] {
      var rest := Split(s[1..]);
      SplitJoin(s[1..]);
      if s[0] == '_' {
        assert Split(s) == [[]] + rest;
        assert ([[]] + rest)[1..] == rest;
        assert JoinUnderscore(Split(s)) == [] + "_" + JoinUnderscore(rest);
      } else {
        var ws := [[s[0]] + rest[0]] + rest[1..];
        assert Split(s) == ws;
        if |rest| == 1 {
          assert JoinUnderscore(ws) == [s[0]] + rest[0];
        } else {
          assert ws[1..] == rest[1..];
          assert JoinUnderscore(ws) == [s[0]] + rest[0] + "_" + JoinUnderscore(rest[1..]);
        }
      }
    }
  }

  /** One step of `str.title()`: a letter is upper-cased when the previous character is
      not cased and lower-cased when it is; other characters are kept. */
  function CaseStep(c: char, prevCased: bool): char {
    if IsLetter(c) then (if prevCased then Lower(c) else Upper(c)) else c
  }

  /** `str.title()` on the rest of a word, given whether the character before it was cased. */
  function TitleFrom(w: string, prevCased: bool): (r: string)
    ensures |r| == |w|
    ensures |w| > 0 ==> r[0] == CaseStep(w[0], prevCased)
    ensures forall i :: 0 < i < |w| ==> r[i] == CaseStep(w[i], IsLetter(w[i - 1]))
  {
    if w == [] then [] else [CaseStep(w[0], prevCased)] + TitleFrom(w[1..], IsLetter(w[0]))
  }

  /** `word.title()`. */
  function Title(w: string): (r: string)
    ensures |r| == |w|
    ensures forall i :: 0 <= i < |w| ==> IsLetter(r[i]) == IsLetter(w[i])
    ensures forall i :: 0 <= i < |w| && !IsLetter(w[i]) ==> r[i] == w[i]
    ensures forall i :: 0 <= i < |w| && IsLetter(w[i]) && (i == 0 || !IsLetter(w[i - 1])) ==> r[i] == Upper(w[i])
    ensures forall i :: 0 < i < |w| && IsLetter(w[i]) && IsLetter(w[i - 1]) ==> r[i] == Lower(w[i])
  {
    var r := TitleFrom(w, false);
    assert forall i :: 0 <= i < |w| && !IsLetter(w[i]) ==> r[i] == w[i] by {
      forall i | 0 <= i < |w| && !IsLetter(w[i]) ensures r[i] == w[i] {
        assert r[i] == CaseStep(w[i], i > 0 && IsLetter(w[i - 1]));
      }
    }
    assert forall i :: 0 <= i < |w| ==> IsLetter(r[i]) == IsLetter(w[i]) by {
      forall i | 0 <= i < |w| ensures IsLetter(r[i]) == IsLetter(w[i]) {
        assert r[i] == CaseStep(w[i], i > 0 && IsLetter(w[i - 1]));
      }
    }
    r
  }

  /** `"".join(word.title() for word in ws)`. */
  function ConcatTitled(ws: seq<string>): (r: string)
    ensures (forall i :: 0 <= i < |ws| ==> '_' !in ws[i]) ==> '_' !in r
  {
    if ws == [] then []
    else
      var t := Title(ws[0]);
      assert forall j :: 0 <= j < |t| && t[j] == '_' ==> ws[0][j] == '_';
      t + ConcatTitled(ws[1..])
  }

  /** `snake_to_camel(name)`: no underscore survives, and "" maps to "". */
  function SnakeToCamel(name: string): (r: string)
    ensures '_' !in r
    ensures name == [] ==> r == []
  {
    var ws := Split(name);
    assert name == [] ==> ws == [[]] && ConcatTitled(ws) == Title([]) + ConcatTitled([]);
    ConcatTitled(ws)
  }

  /** `snake_to_camel` as a single pass: an underscore is dropped and ends a word, every
      other character goes through `str.title()`'s step. */
  function Camelize(s: string, prevCased: bool): string {
    if s == [] then []
    else if s[0] == '_' then Camelize(s[1..], false)
    else [CaseStep(s[0], prevCased)] + Camelize(s[1..], IsLetter(s[0]))
  }

  lemma {:induction false} CamelizeSplit(s: string, prevCased: bool)
    ensures Camelize(s, prevCased) == TitleFrom(Split(s)[0], prevCased) + ConcatTitled(Split(s)[1..])
  {
    if s != [] {
      var rest := Split(s[1..]);
      if s[0] == '_' {
        CamelizeSplit(s[1..], false);
        assert Split(s)[1..] == rest;
      } else {
        CamelizeSplit(s[1..], IsLetter(s[0]));
        var w := [s[0]] + rest[0];
        assert Split(s)[0] == w && Split(s)[1..] == rest[1..];
        assert w[1..] == rest[0];
      }
    }
  }

  lemma SnakeToCamelIsCamelize(s: string)
    ensures SnakeToCamel(s) == Camelize(s, false)
  {
    CamelizeSplit(s, false);
  }

  /** A class name in CamelCase: ASCII letters only, starting upper-case. */
  predicate IsCamelName(s: string) {
    |s| > 0 && IsUpper(s[0]) && forall i :: 0 <= i < |s| ==> IsLetter(s[i])
  }

  lemma {:induction false} CamelizeTail(t: string)
    requires forall i :: 0 <= i < |t| ==> IsLetter(t[i])
    ensures Camelize(LowerAscii(UnderscoreBeforeUpper(t)), true) == t
  {
    if t != [] {
      var tail := LowerAscii(UnderscoreBeforeUpper(t[1..]));
      CamelizeTail(t[1..]);
      if IsUpper(t[0]) {
        LowerAsciiAppend(['_', t[0]], UnderscoreBeforeUpper(t[1..]));
        var x := ['_', Lower(t[0])] + tail;
        assert LowerAscii(UnderscoreBeforeUpper(t)) == x;
        assert x[1..] == [Lower(t[0])] + tail;
        assert ([Lower(t[0])] + tail)[1..] == tail;
      } else {
        LowerAsciiAppend([t[0]], UnderscoreBeforeUpper(t[1..]));
        var x := [t[0]] + tail;
        assert LowerAscii(UnderscoreBeforeUpper(t)) == x;
        assert x[1..] == tail;
      }
    }
  }

  /** snake_to_camel undoes camel_to_snake on CamelCase names, e.g. "DnsClient" and "DNSClient". */
  lemma CamelSnakeRoundTrip(s: string)
    requires IsCamelName(s)
    ensures SnakeToCamel(CamelToSnake(s)) == s
  {
    SnakeToCamelIsCamelize(CamelToSnake(s));
    LowerAsciiAppend([s[0]], UnderscoreBeforeUpper(s[1..]));
    var tail := LowerAscii(UnderscoreBeforeUpper(s[1..]));
    CamelizeTail(s[1..]);
    var x := [Lower(s[0])] + tail;
    assert CamelToSnake(s) == x;
    assert x[1..] == tail;
  }

  /** Distinct CamelCase names get distinct snake_case keys. */
  lemma CamelToSnakeInjective(a: string, b: string)
    requires IsCamelName(a) && IsCamelName(b)
    ensures CamelToSnake(a) == CamelToSnake(b) ==> a == b
  {
    CamelSnakeRoundTrip(a);
    CamelSnakeRoundTrip(b);
  }

  // ---------------------------------------------------------------------------
  // flatten, flatmap

  /** Sum of the lengths of the inner sequences. */
  function TotalLength<T>(xss: seq<seq<T>>): nat {
    if xss == [] then 0 else |xss[0]| + TotalLength(xss[1..])
  }

  /** `flatten(xs)`: the elements of every inner sequence, in order. */
  function Flatten<T>(xss: seq<seq<T>>): (r: seq<T>)
    ensures |r| == TotalLength(xss)
    ensures forall y :: y in r ==> exists i :: 0 <= i < |xss| && y in xss[i]
    ensures forall i, y :: 0 <= i < |xss| && y in xss[i] ==> y in r
  {
    if xss == [] then []
    else
      var rest := Flatten(xss[1..]);
      assert forall i :: 1 <= i < |xss| ==> xss[i] == xss[1..][i - 1];
      xss[0] + rest
  }

  /** Flattening preserves order: it distributes over concatenation. */
  lemma {:induction false} FlattenAppend<T>(a: seq<seq<T>>, b: seq<seq<T>>)
    ensures Flatten(a + b) == Flatten(a) + Flatten(b)
  {
    if a != [] {
      FlattenAppend(a[1..], b);
      assert (a + b)[1..] == a[1..] + b;
    } else {
      assert a + b == b;
    }
  }

  /** `map(f, xs)`. */
  function Map<A, B>(f: A -> B, xs: seq<A>): (r: seq<B>)
    ensures |r| == |xs| && forall i :: 0 <= i < |xs| ==> r[i] == f(xs[i])
  {
    seq(|xs|, i requires 0 <= i < |xs| => f(xs[i]))
  }

  /** `flatmap(f, xs)`: the generator `y for x in xs for y in f(x)`. */
  function FlatMap<A, B>(f: A -> seq<B>, xs: seq<A>): (r: seq<B>)
    ensures xs == [] ==> r == []
  {
    if xs == [] then [] else f(xs[0]) + FlatMap(f, xs[1..])
  }

  /** flatmap is flatten after map. */
  lemma {:induction false} FlatMapIsFlattenOfMap<A, B>(f: A -> seq<B>, xs: seq<A>)
    ensures FlatMap(f, xs) == Flatten(Map(f, xs))
  {
    if xs != [] {
      FlatMapIsFlattenOfMap(f, xs[1..]);
      assert Map(f, xs)[1..] == Map(f, xs[1..]);
    }
  }

  // ---------------------------------------------------------------------------
  // filter_keys

  /** `filter_keys(mapping, keys)`: the entries whose key is NOT among `keys`. */
  function FilterKeys<K, V>(mapping: map<K, V>, keys: set<K>): (r: map<K, V>)
    ensures r.Keys == mapping.Keys - keys
    ensures forall k :: k in r ==> r[k] == mapping[k]
  {
    map k | k in mapping && k !in keys :: mapping[k]
  }

  /** Filtering twice is filtering once by both key sets; filtering by the empty set keeps everything. */
  lemma FilterKeysCompose<K, V>(mapping: map<K, V>, a: set<K>, b: set<K>)
    ensures FilterKeys(FilterKeys(mapping, a), b) == FilterKeys(mapping, a + b)
    ensures FilterKeys(mapping, {}) == mapping
  {
  }

  // ---------------------------------------------------------------------------
  // snake_case_keys, camel_case_keys

  /** A dictionary as its items in iteration (insertion) order. */
  type Items<V> = seq<(string, V)>

  /** No later item of `items` is converted to the same key as item `i`. */
  ghost predicate LastOfItsKey<V>(items: Items<V>, convert: string -> string, i: int)
    requires 0 <= i < |items|
  {
    forall j :: i < j < |items| ==> convert(items[j].0) != convert(items[i].0)
  }

  /** The set of keys `convert` gives to the items. */
  function KeyImage<V>(items: Items<V>, convert: string -> string): set<string> {
    set i | 0 <= i < |items| :: convert(items[i].0)
  }

  lemma KeyImageSnoc<V>(items: Items<V>, front: Items<V>, last: (string, V), convert: string -> string)
    requires items == front + [last]
    ensures KeyImage(items, convert) == KeyImage(front, convert) + {convert(last.0)}
  {
    forall k | k in KeyImage(items, convert)
      ensures k in KeyImage(front, convert) + {convert(last.0)}
    {
      var i :| 0 <= i < |items| && k == convert(items[i].0);
      if i < |front| { assert k == convert(front[i].0); }
    }
    forall k | k in KeyImage(front, convert)
      ensures k in KeyImage(items, convert)
    {
      var i :| 0 <= i < |front| && k == convert(front[i].0);
      assert k == convert(items[i].0);
    }
    assert convert(items[|front|].0) in KeyImage(items, convert);
  }

  /** The dict comprehension `{convert(k): v for k, v in items}`: its keys are the images of
      the input keys, and each key holds the value of the last item converted to it. */
  function Rekey<V>(items: Items<V>, convert: string -> string): (r: map<string, V>)
    ensures r.Keys == KeyImage(items, convert)
    ensures forall i :: 0 <= i < |items| && LastOfItsKey(items, convert, i) ==> r[convert(items[i].0)] == items[i].1
  {
    if items == [] then map[]
    else
      var n := |items| - 1;
      var front := items[..n];
      var r := Rekey(front, convert)[convert(items[n].0) := items[n].1];
      assert items == front + [items[n]];
      KeyImageSnoc(items, front, items[n], convert);
      forall i | 0 <= i < |items| && LastOfItsKey(items, convert, i)
        ensures r[convert(items[i].0)] == items[i].1
      {
        if i < n {
          assert LastOfItsKey(front, convert, i);
          assert convert(items[n].0) != convert(items[i].0);
        }
      }
      r
  }

  /** `snake_case_keys(d)`: every key through camel_to_snake. */
  function SnakeCaseKeys<V>(items: Items<V>): (r: map<string, V>)
    ensures r.Keys == KeyImage(items, CamelToSnake)
    ensures forall i :: 0 <= i < |items| && LastOfItsKey(items, CamelToSnake, i) ==> r[CamelToSnake(items[i].0)] == items[i].1
  {
    Rekey(items, CamelToSnake)
  }

  /** `camel_case_keys(d)`: every key through snake_to_camel. */
  function CamelCaseKeys<V>(items: Items<V>): (r: map<string, V>)
    ensures r.Keys == KeyImage(items, SnakeToCamel)
    ensures forall i :: 0 <= i < |items| && LastOfItsKey(items, SnakeToCamel, i) ==> r[SnakeToCamel(items[i].0)] == items[i].1
  {
    Rekey(items, SnakeToCamel)
  }

  /** When the keys are distinct CamelCase names nothing collides: every value is kept
      under the snake_case form of its own key. */
  lemma SnakeCaseKeysOfCamelNames<V>(items: Items<V>)
    requires forall i :: 0 <= i < |items| ==> IsCamelName(items[i].0)
    requires forall i, j :: 0 <= i < j < |items| ==> items[i].0 != items[j].0
    ensures forall i :: 0 <= i < |items| ==>
      CamelToSnake(items[i].0) in SnakeCaseKeys(items) && SnakeCaseKeys(items)[CamelToSnake(items[i].0)] == items[i].1
  {
    forall i | 0 <= i < |items|
      ensures LastOfItsKey(items, CamelToSnake, i)
    {
      forall j | i < j < |items| ensures CamelToSnake(items[j].0) != CamelToSnake(items[i].0) {
        CamelToSnakeInjective(items[i].0, items[j].0);
      }
    }
  }

  // ---------------------------------------------------------------------------
  // try_exec

  /** `try_exec(fn, *args, **kwargs)`: `fn`'s value wrapped in `Some` when it returns,
      `None` when it raises an `Exception`; a `BaseException` outside `Exception` passes through. */
  function TryExec<A, B>(fn: A -> Outcome<B>, args: A): (r: Outcome<Option<B>>)
    ensures r.Raised? ==> fn(args).Raised? && r.exc == fn(args).exc && !IsException(r.exc)
    ensures r.Returned? && r.value.Some? <==> fn(args).Returned?
    ensures fn(args).Returned? ==> r.value.value == fn(args).value
    ensures fn(args).Raised? && IsException(fn(args).exc) ==> r == Returned(None)
    ensures fn(args).Raised? && !IsException(fn(args).exc) ==> r == Raised(fn(args).exc)
  {
    match fn(args)
    case Returned(v) => Returned(Some(v))
    case Raised(e) => if IsException(e) then Returned(None) else Raised(e)
  }
}
