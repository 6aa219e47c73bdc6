/**
 * The web console's translation helper: a dotted key is looked up in a
 * nested dictionary one segment at a time, a miss answers the key itself,
 * and every `{{name}}` placeholder is replaced by its parameter's text.
 */
module I18n {
  import opened Common

  datatype Locale = En | Zh

  /** A dictionary value: a string, a nested object, or anything else JSON can hold. */
  datatype Node = Text(s: string) | Object(entries: map<string, Node>) | OtherValue

  // ------------------------------------------------------------ splitting

  /** `parts.join(sep)`. */
  function Join(parts: seq<string>, sep: string): string {
    if parts == [] then ""
    else if |parts| == 1 then parts[0]
    else parts[0] + sep + Join(parts[1..], sep)
  }

  /** `key.split(".")`: the segments between dots, empty ones included. */
  function Split(key: string): (r: seq<string>)
    ensures |r| >= 1
    ensures forall i :: 0 <= i < |r| ==> '.' !in r[i]
  {
    if '.' !in key then [key]
    else
      var i := FirstDot(key);
      [key[..i]] + Split(key[i + 1..])
  }

  function FirstDot(s: string): (i: nat)
    requires '.' in s
    ensures i < |s| && s[i] == '.' && '.' !in s[..i]
  {
    if s[0] == '.' then 0
    else
      assert s == [s[0]] + s[1..];
      var j := FirstDot(s[1..]);
      assert s[..j + 1] == [s[0]] + s[1..][..j];
      j + 1
  }

  /** Joining a segment in front of at least one more puts the separator between them. */
  lemma JoinCons(first: string, rest: seq<string>, sep: string)
    requires |rest| >= 1
    ensures Join([first] + rest, sep) == first + sep + Join(rest, sep)
  {
    assert ([first] + rest)[1..] == rest;
  }

  /** Joining the segments with dots gives the key back. */
  lemma {:induction false} JoinSplit(key: string)
    ensures Join(Split(key), ".") == key
  {
    if '.' in key {
      var i := FirstDot(key);
      JoinSplit(key[i + 1..]);
      JoinCons(key[..i], Split(key[i + 1..]), ".");
      assert key == key[..i] + "." + key[i + 1..];
    }
  }

  /** Splitting dot-free segments joined by dots gives the segments back. */
  lemma {:induction false} SplitJoin(parts: seq<string>)
    requires |parts| >= 1 && forall i :: 0 <= i < |parts| ==> '.' !in parts[i]
    ensures Split(Join(parts, ".")) == parts
  {
    if |parts| > 1 {
      var key := Join(parts, ".");
      var rest := Join(parts[1..], ".");
      assert key == parts[0] + "." + rest;
      assert key[|parts[0]|] == '.';
      assert key[..|parts[0]|] == parts[0];
      var i := FirstDot(key);
      assert i == |parts[0]|;
      assert key[i + 1..] == rest;
      SplitJoin(parts[1..]);
    }
  }

  // ------------------------------------------------------------ lookup

  /** The `reduce` over segments: undefined once a segment is missing or the value is not an object. */
  function Walk(acc: Option<Node>, parts: seq<string>): (r: Option<Node>)
    ensures acc.None? ==> r.None?
    decreases parts
  {
    if parts == [] then acc
    else
      var next := match acc
        case Some(Object(m)) => if parts[0] in m then Some(m[parts[0]]) else None
        case _ => None;
      Walk(next, parts[1..])
  }

  /**
   * The replacement string as `String.prototype.replace` reads it for a
   * pattern without capture groups: "$$" is a dollar sign, "$&" the matched
   * text, "$`" the text before the match and "$'" the text after it; any
   * other "$" stands for itself.
   */
  function Expand(rep: string, matched: string, before: string, after: string): (r: string)
    ensures '$' !in rep ==> r == rep
    decreases |rep|
  {
    if rep == [] then []
    else if rep[0] == '$' && |rep| >= 2 && rep[1] == '$' then "$" + Expand(rep[2..], matched, before, after)
    else if rep[0] == '$' && |rep| >= 2 && rep[1] == '&' then matched + Expand(rep[2..], matched, before, after)
    else if rep[0] == '$' && |rep| >= 2 && rep[1] == '`' then before + Expand(rep[2..], matched, before, after)
    else if rep[0] == '$' && |rep| >= 2 && rep[1] == '\'' then after + Expand(rep[2..], matched, before, after)
    else
      assert rep == [rep[0]] + rep[1..];
      [rep[0]] + Expand(rep[1..], matched, before, after)
  }

  /**
   * `replace(new RegExp(pattern, "g"), rep)` on the text `done + s`, for a
   * pattern of plain characters, where `done` has been scanned already:
   * each occurrence, left to right and not overlapping, becomes the
   * expansion of `rep` for that match.
   */
  function ReplaceIn(done: string, s: string, pattern: string, rep: string): string
    requires pattern != []
    decreases |s|
  {
    if |s| < |pattern| then s
    else if s[..|pattern|] == pattern then
      Expand(rep, pattern, done, s[|pattern|..]) + ReplaceIn(done + pattern, s[|pattern|..], pattern, rep)
    else [s[0]] + ReplaceIn(done + [s[0]], s[1..], pattern, rep)
  }

  /** `String.prototype.replace(new RegExp(pattern, "g"), rep)`. */
  function ReplaceAll(s: string, pattern: string, rep: string): string
    requires pattern != []
  {
    ReplaceIn([], s, pattern, rep)
  }

  function Placeholder(name: string): (r: string)
    ensures r != []
  {
    "{{" + name + "}}"
  }

  /** The `reduce` over parameters, in their order. */
  function Substitute(value: string, params: seq<(string, string)>): string
    decreases params
  {
    if params == [] then value
    else Substitute(ReplaceAll(value, Placeholder(params[0].0), params[0].1), params[1..])
  }

  /** translate: the dictionary string at the dotted key, or the key itself; then the parameters. */
  function Translate(dict: Node, key: string, params: Option<seq<(string, string)>>): (r: string)
    ensures Walk(Some(dict), Split(key)).None? ==> r == key
    ensures Walk(Some(dict), Split(key)).Some? && !Walk(Some(dict), Split(key)).value.Text? ==> r == key
  {
    match Walk(Some(dict), Split(key))
    case Some(Text(value)) =>
      (match params
       case None => value
       case Some(ps) => Substitute(value, ps))
    case _ => key
  }

  /** A key with no dot looks up one entry of the dictionary. */
  lemma TranslateTopLevel(m: map<string, Node>, key: string, value: string)
    requires '.' !in key && key in m && m[key] == Text(value)
    ensures Translate(Object(m), key, None) == value
  {
    assert Split(key) == [key];
    assert Walk(Some(Object(m)), [key]) == Walk(Some(m[key]), []);
  }

  /** A dotted key walks one object per segment. */
  lemma {:induction false} TranslateNested(m: map<string, Node>, a: string, b: string, value: string)
    requires '.' !in a && '.' !in b
    requires a in m && m[a].Object? && b in m[a].entries && m[a].entries[b] == Text(value)
    ensures Translate(Object(m), a + "." + b, None) == value
  {
    SplitJoin([a, b]);
    assert Join([a, b], ".") == a + "." + b;
    assert Walk(Some(Object(m)), [a, b]) == Walk(Some(m[a]), [b]);
    assert Walk(Some(m[a]), [b]) == Walk(Some(m[a].entries[b]), []);
  }

  /**
   * A chain of nodes down a dictionary: each node is an object whose entry
   * under the next segment is the next node.
   */
  predicate Chain(path: seq<Node>, parts: seq<string>) {
    && |path| == |parts| + 1
    && forall k :: 0 <= k < |parts| ==>
         path[k].Object? && parts[k] in path[k].entries && path[k].entries[parts[k]] == path[k + 1]
  }

  /** The walk follows a chain to its last node, at any depth. */
  lemma {:induction false} WalkChain(path: seq<Node>, parts: seq<string>)
    requires Chain(path, parts)
    ensures Walk(Some(path[0]), parts) == Some(path[|parts|])
    decreases parts
  {
    if parts != [] {
      assert Chain(path[1..], parts[1..]) by {
        forall k | 0 <= k < |parts[1..]|
          ensures path[1..][k].Object? && parts[1..][k] in path[1..][k].entries
            && path[1..][k].entries[parts[1..][k]] == path[1..][k + 1]
        {
          assert path[1..][k] == path[k + 1] && parts[1..][k] == parts[k + 1] && path[1..][k + 1] == path[k + 2];
        }
      }
      WalkChain(path[1..], parts[1..]);
      assert path[1..][|parts[1..]|] == path[|parts|];
    }
  }

  /** A string reached by dot-free segments, at any depth, is what their dotted key translates to. */
  lemma {:induction false} TranslateAtDepth(path: seq<Node>, parts: seq<string>, value: string)
    requires |parts| >= 1 && forall i :: 0 <= i < |parts| ==> '.' !in parts[i]
    requires Chain(path, parts) && path[|parts|] == Text(value)
    ensures Translate(path[0], Join(parts, "."), None) == value
  {
    SplitJoin(parts);
    WalkChain(path, parts);
  }

  // ------------------------------------------------------------ replacing

  predicate OccursAt(s: string, pattern: string, i: int) {
    0 <= i && i + |pattern| <= |s| && s[i..i + |pattern|] == pattern
  }

  /** A text without the placeholder is left as it is. */
  lemma {:induction false} ReplaceAllAbsent(done: string, s: string, pattern: string, rep: string)
    requires pattern != [] && forall i :: !OccursAt(s, pattern, i)
    ensures ReplaceIn(done, s, pattern, rep) == s
    decreases |s|
  {
    if |s| >= |pattern| {
      assert !OccursAt(s, pattern, 0);
      forall i ensures !OccursAt(s[1..], pattern, i) {
        assert !OccursAt(s, pattern, i + 1);
      }
      ReplaceAllAbsent(done + [s[0]], s[1..], pattern, rep);
      assert s == [s[0]] + s[1..];
    }
  }

  /** Parameters none of whose placeholders occur in the text leave it as it is. */
  lemma {:induction false} SubstituteAbsent(value: string, params: seq<(string, string)>)
    requires forall k, i :: 0 <= k < |params| ==> !OccursAt(value, Placeholder(params[k].0), i)
    ensures Substitute(value, params) == value
    decreases params
  {
    if params != [] {
      ReplaceAllAbsent([], value, Placeholder(params[0].0), params[0].1);
      assert forall k, i :: 0 <= k < |params[1..]| ==> !OccursAt(value, Placeholder(params[1..][k].0), i) by {
        forall k, i | 0 <= k < |params[1..]| ensures !OccursAt(value, Placeholder(params[1..][k].0), i) {
          assert params[1..][k] == params[k + 1];
        }
      }
      SubstituteAbsent(value, params[1..]);
    }
  }

  /**
   * A `{{name}}` no parameter matches stays in the rendered text: a string
   * in which no parameter's placeholder occurs renders as itself.
   */
  lemma {:induction false} TranslateKeepsUnmatched(dict: Node, key: string, value: string, params: seq<(string, string)>)
    requires Walk(Some(dict), Split(key)) == Some(Text(value))
    requires forall k, i :: 0 <= k < |params| ==> !OccursAt(value, Placeholder(params[k].0), i)
    ensures Translate(dict, key, Some(params)) == value
  {
    SubstituteAbsent(value, params);
  }

  /**
   * Every occurrence is replaced: literal text that never contains the
   * placeholder's first character, joined by placeholders, comes out joined
   * by a replacement that holds no "$" pattern.
   */
  lemma {:induction false} ReplaceAllJoin(done: string, parts: seq<string>, pattern: string, rep: string)
    requires pattern != [] && |parts| >= 1 && '$' !in rep
    requires forall i :: 0 <= i < |parts| ==> pattern[0] !in parts[i]
    ensures ReplaceIn(done, Join(parts, pattern), pattern, rep) == Join(parts, rep)
    decreases |parts|
  {
    if |parts| == 1 {
      PlainText(done, parts[0], pattern, rep, "");
      assert parts[0] + "" == parts[0];
    } else {
      var rest := Join(parts[1..], pattern);
      ReplaceAllJoin(done + parts[0] + pattern, parts[1..], pattern, rep);
      ReplaceAtStart(done + parts[0], rest, pattern, rep);
      PlainText(done, parts[0], pattern, rep, pattern + rest);
      assert Join(parts, pattern) == parts[0] + (pattern + rest);
    }
  }

  /** Text free of the placeholder's first character passes through unchanged. */
  lemma {:induction false} PlainText(done: string, p: string, pattern: string, rep: string, t: string)
    requires pattern != [] && pattern[0] !in p
    ensures ReplaceIn(done, p + t, pattern, rep) == p + ReplaceIn(done + p, t, pattern, rep)
    decreases |p|
  {
    if p != [] {
      var s := p + t;
      assert s[0] == p[0] && s[1..] == p[1..] + t;
      if |s| >= |pattern| {
        assert s[..|pattern|][0] == p[0];
      }
      PlainText(done + [p[0]], p[1..], pattern, rep, t);
      assert p == [p[0]] + p[1..];
      assert done + [p[0]] + p[1..] == done + p;
    } else {
      assert p + t == t && done + p == done;
    }
  }

  /** An occurrence at the front becomes the expansion for that match. */
  lemma ReplaceAtStart(done: string, t: string, pattern: string, rep: string)
    requires pattern != []
    ensures ReplaceIn(done, pattern + t, pattern, rep)
      == Expand(rep, pattern, done, t) + ReplaceIn(done + pattern, t, pattern, rep)
  {
    assert (pattern + t)[..|pattern|] == pattern;
    assert (pattern + t)[|pattern|..] == t;
  }

  /** A template is rendered by replacing its one placeholder everywhere by an argument without "$". */
  lemma {:induction false} TranslateFillsPlaceholder(m: map<string, Node>, key: string, parts: seq<string>, name: string, arg: string)
    requires '.' !in key && key in m && |parts| >= 1 && '$' !in arg
    requires m[key] == Text(Join(parts, Placeholder(name)))
    requires forall i :: 0 <= i < |parts| ==> '{' !in parts[i]
    ensures Translate(Object(m), key, Some([(name, arg)])) == Join(parts, arg)
  {
    var pattern := Placeholder(name);
    assert pattern[0] == '{';
    ReplaceAllJoin([], parts, pattern, arg);
    assert Split(key) == [key];
    assert Walk(Some(Object(m)), [key]) == Walk(Some(m[key]), []);
    assert Substitute(Join(parts, pattern), [(name, arg)]) == Substitute(ReplaceAll(Join(parts, pattern), pattern, arg), []);
  }

  /** A template that is just the placeholder renders as the argument's expansion for that one match. */
  lemma {:induction false} RenderWholePlaceholder(m: map<string, Node>, key: string, name: string, rep: string)
    requires '.' !in key && key in m && m[key] == Text(Placeholder(name))
    ensures Translate(Object(m), key, Some([(name, rep)])) == Expand(rep, Placeholder(name), [], [])
  {
    var p := Placeholder(name);
    assert Split(key) == [key];
    assert Walk(Some(Object(m)), [key]) == Walk(Some(m[key]), []);
    assert p + [] == p;
    ReplaceAtStart([], [], p, rep);
    assert ReplaceIn([] + p, [], p, rep) == [];
    assert Substitute(p, [(name, rep)]) == Substitute(ReplaceAll(p, p, rep), []);
  }

  /**
   * Arguments are read as replacement patterns: for a template that is just
   * the placeholder, "$&" renders the placeholder itself, "$$5" renders
   * "$5", and "$1" (there are no capture groups) stays "$1".
   */
  lemma {:induction false} TranslateExpandsDollarPatterns(m: map<string, Node>, key: string, name: string)
    requires '.' !in key && key in m && m[key] == Text(Placeholder(name))
    ensures Translate(Object(m), key, Some([(name, "$&")])) == Placeholder(name)
    ensures Translate(Object(m), key, Some([(name, "$$5")])) == "$5"
    ensures Translate(Object(m), key, Some([(name, "$1")])) == "$1"
  {
    var p := Placeholder(name);
    RenderWholePlaceholder(m, key, name, "$&");
    RenderWholePlaceholder(m, key, name, "$$5");
    RenderWholePlaceholder(m, key, name, "$1");
    assert Expand("$&", p, [], []) == p + Expand([], p, [], []);
    assert "$$5"[2..] == "5";
    assert Expand("$$5", p, [], []) == "$" + Expand("5", p, [], []);
    assert "$1"[1..] == "1";
    assert Expand("$1", p, [], []) == "$" + Expand("1", p, [], []);
  }

  // ------------------------------------------------------------ locale

  function FoldLower(c: char): char {
    if 'A' <= c <= 'Z' then (c as int + 32) as char else c
  }

  /**
   * getBrowserLocale: Chinese when the browser's language, lower-cased,
   * starts with "zh"; English otherwise, and outside a browser.
   */
  function BrowserLocale(hasNavigator: bool, language: Option<string>): (r: Locale)
    ensures r == Zh <==>
      hasNavigator && language.Some? && |language.value| >= 2
      && FoldLower(language.value[0]) == 'z' && FoldLower(language.value[1]) == 'h'
  {
    if !hasNavigator then En
    else match language
      case None => En
      case Some(lang) =>
        if |lang| >= 2 && FoldLower(lang[0]) == 'z' && FoldLower(lang[1]) == 'h' then Zh else En
  }

  lemma BrowserLocaleExamples()
    ensures BrowserLocale(true, Some("zh-CN")) == Zh && BrowserLocale(true, Some("ZH-tw")) == Zh
    ensures BrowserLocale(true, Some("en-US")) == En && BrowserLocale(false, Some("zh")) == En
    ensures BrowserLocale(true, Some("z")) == En
  {
  }
}
