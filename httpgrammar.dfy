/// The character-level pieces of the request parser (code/http/httprequest.cpp):
/// the CRLF line splitter, the two regular expressions, the path rewrite and the
/// `application/x-www-form-urlencoded` decoder.
///
/// Strings are the source's `std::string`s, one `char` per byte.

module HttpGrammar {

  import opened Wrappers

  // ---------------------------------------------------------------------------
  // Searching
  // ---------------------------------------------------------------------------

  /** The index of the first `c` in `s` at or after `k`, or `|s|` when there is none. */
  function IndexFrom(s: string, c: char, k: nat): (i: nat)
    requires k <= |s|
    ensures k <= i <= |s|
    ensures i < |s| ==> s[i] == c
    ensures forall m :: k <= m < i ==> s[m] != c
    decreases |s| - k
  {
    if k == |s| || s[k] == c then k else IndexFrom(s, c, k + 1)
  }

  /** The index of the first `c` in `s`, or `|s|` when there is none. */
  function IndexOf(s: string, c: char): (k: nat)
    ensures k <= |s|
    ensures k < |s| ==> s[k] == c
    ensures forall m :: 0 <= m < k ==> s[m] != c
  {
    IndexFrom(s, c, 0)
  }

  /** `s` holds a CR LF pair starting at `k`. */
  predicate CrlfAt(s: string, k: int)
  {
    0 <= k && k + 1 < |s| && s[k] == '\r' && s[k + 1] == '\n'
  }

  /** `std::search` for "\r\n" from index `k`: the first CR LF pair at or after `k`, or `|s|`. */
  function FindCrlfFrom(s: string, k: nat): (e: nat)
    requires k <= |s|
    ensures k <= e <= |s|
    ensures e < |s| ==> CrlfAt(s, e)
    ensures forall m :: k <= m < e ==> !CrlfAt(s, m)
    decreases |s| - k
  {
    if |s| - k < 2 then |s|
    else if CrlfAt(s, k) then k
    else FindCrlfFrom(s, k + 1)
  }

  /** `std::search` for "\r\n": the index of the first CR LF pair, or `|s|` when there is none. */
  function FindCrlf(s: string): (e: nat)
    ensures e <= |s|
    ensures e < |s| ==> CrlfAt(s, e)
    ensures forall k :: 0 <= k < e ==> !CrlfAt(s, k)
  {
    FindCrlfFrom(s, 0)
  }

  // ---------------------------------------------------------------------------
  // The request line: ^([^ ]*) ([^ ]*) HTTP/([^ ]*)$
  // ---------------------------------------------------------------------------

  /** `[^ ]*`: no character is a space. */
  predicate NoSpace(s: string)
  {
    forall k :: 0 <= k < |s| ==> s[k] != ' '
  }

  /** The three captures of the request-line pattern. */
  datatype StartLine = StartLine(verb: string, path: string, version: string)

  /** The request-line pattern, read directly: three space-free parts, the last after "HTTP/". */
  ghost predicate IsRequestLine(line: string, sl: StartLine)
  {
    && line == sl.verb + " " + sl.path + " HTTP/" + sl.version
    && NoSpace(sl.verb) && NoSpace(sl.path) && NoSpace(sl.version)
  }

  /** `regex_match` with the request-line pattern: the captures, or `None` when the line does
      not match.  The first two spaces must be the separators, since no part holds a space. */
  function MatchRequestLine(line: string): Option<StartLine>
  {
    var a := IndexOf(line, ' ');
    if a == |line| then None
    else
      var rest := line[a + 1..];
      var b := IndexOf(rest, ' ');
      if b == |rest| then None
      else
        var tail := rest[b + 1..];
        if |tail| >= 5 && tail[..5] == "HTTP/" && NoSpace(tail[5..]) then
          Some(StartLine(line[..a], rest[..b], tail[5..]))
        else None
  }

  /** Cutting a sequence around position `k`. */
  lemma CutAt(s: string, k: nat)
    requires k < |s|
    ensures s == s[..k] + [s[k]] + s[k + 1..]
  {
  }

  /** After a space-free text, the first space is the one that follows it. */
  lemma FirstSpaceAfter(m: string, rest: string)
    requires NoSpace(m)
    ensures IndexOf(m + " " + rest, ' ') == |m|
  {
    var s := m + " " + rest;
    assert s[|m|] == ' ';
    assert forall k :: 0 <= k < |m| ==> s[k] == m[k];
  }

  /** A text with a space is the space-free text before its first space, that space, and
      the rest. */
  lemma SplitAtSpace(s: string)
    requires IndexOf(s, ' ') < |s|
    ensures var a := IndexOf(s, ' ');
            s == s[..a] + " " + s[a + 1..] && NoSpace(s[..a])
  {
    CutAt(s, IndexOf(s, ' '));
  }

  /** What the matcher captures has the shape of the pattern. */
  lemma MatchRequestLineSound(line: string)
    requires MatchRequestLine(line).Some?
    ensures IsRequestLine(line, MatchRequestLine(line).value)
  {
    var a := IndexOf(line, ' ');
    var rest := line[a + 1..];
    var b := IndexOf(rest, ' ');
    var tail := rest[b + 1..];
    SplitAtSpace(line);
    SplitAtSpace(rest);
    RegroupRequestLine(line, line[..a], rest, rest[..b], tail);
  }

  /** A line cut at its two separators, with "HTTP/" opening the tail, reads as the pattern. */
  lemma RegroupRequestLine(line: string, m: string, rest: string, p: string, tail: string)
    requires line == m + " " + rest && rest == p + " " + tail
    requires |tail| >= 5 && tail[..5] == "HTTP/"
    ensures line == m + " " + p + " HTTP/" + tail[5..]
  {
    assert tail == "HTTP/" + tail[5..] by {
      assert tail == tail[..5] + tail[5..];
    }
    JoinRequestLine(m, p, tail[5..]);
  }

  /** Regrouping the request line around its two separators. */
  lemma JoinRequestLine(m: string, p: string, v: string)
    ensures m + " " + (p + " " + ("HTTP/" + v)) == m + " " + p + " HTTP/" + v
  {
    var x := " HTTP/" + v;
    assert " " + ("HTTP/" + v) == x;
    assert p + " " + ("HTTP/" + v) == p + x;
    assert p + x == p + " HTTP/" + v;
  }

  /** The pattern has one way to match: every line of that shape yields exactly its parts. */
  lemma MatchRequestLineComplete(line: string, sl: StartLine)
    requires IsRequestLine(line, sl)
    ensures MatchRequestLine(line) == Some(sl)
  {
    var m, p, v := sl.verb, sl.path, sl.version;
    var tail := "HTTP/" + v;
    var rest := p + " " + tail;
    assert line == m + " " + rest by {
      JoinRequestLine(m, p, v);
    }
    assert IndexOf(line, ' ') == |m| by {
      FirstSpaceAfter(m, rest);
    }
    assert line[|m| + 1..] == rest && line[..|m|] == m;
    assert IndexOf(rest, ' ') == |p| by {
      FirstSpaceAfter(p, tail);
    }
    assert rest[|p| + 1..] == tail && rest[..|p|] == p;
    assert tail[..5] == "HTTP/" && tail[5..] == v;
  }

  // ---------------------------------------------------------------------------
  // A header line: ^([^:]*): ?(.*)$
  // ---------------------------------------------------------------------------

  /** `.` of the ECMAScript grammar matches any `char` except a line terminator. */
  predicate NoLineBreak(s: string)
  {
    forall k :: 0 <= k < |s| ==> s[k] != '\n' && s[k] != '\r'
  }

  predicate NoColon(s: string)
  {
    forall k :: 0 <= k < |s| ==> s[k] != ':'
  }

  /** The header pattern, read directly: a colon-free key, a colon, the optional space taken
      whenever it is there (the `?` is greedy), and a value without line breaks. */
  ghost predicate IsHeaderLine(line: string, key: string, value: string)
  {
    && NoColon(key) && NoLineBreak(value)
    && (|| line == key + ": " + value
        || (line == key + ":" + value && (value == [] || value[0] != ' ')))
  }

  /** `regex_match` with the header pattern: the key and value captures, or `None`. */
  function MatchHeader(line: string): (r: Option<(string, string)>)
    ensures r.Some? ==> IsHeaderLine(line, r.value.0, r.value.1)
  {
    var c := IndexOf(line, ':');
    if c == |line| then None
    else
      var after := line[c + 1..];
      if !NoLineBreak(after) then None
      else if |after| > 0 && after[0] == ' ' then
        assert line == line[..c] + ": " + after[1..] by {
          assert line == line[..c] + [':'] + after;
          assert after == " " + after[1..];
        }
        Some((line[..c], after[1..]))
      else
        assert line == line[..c] + ":" + after;
        Some((line[..c], after))
  }

  /** Every line of the header shape matches, with exactly its key and value. */
  lemma MatchHeaderComplete(line: string, key: string, value: string)
    requires IsHeaderLine(line, key, value)
    ensures MatchHeader(line) == Some((key, value))
  {
    assert line[|key|] == ':';
    assert forall k :: 0 <= k < |key| ==> line[k] == key[k];
    assert IndexOf(line, ':') == |key|;
    assert line[..|key|] == key;
    var after := line[|key| + 1..];
    if line == key + ": " + value {
      assert after == " " + value;
      assert after[1..] == value;
    } else {
      assert after == value;
    }
  }

  /** A line without a colon is not a header line; the parser takes it as the end of the headers. */
  lemma NoColonNoHeader(line: string)
    requires NoColon(line)
    ensures MatchHeader(line) == None
  {
  }

  // ---------------------------------------------------------------------------
  // Path rewriting (ParsePath_)
  // ---------------------------------------------------------------------------

  /** `DEFAULT_HTML`: the pages that may be requested without their ".html" suffix. */
  const DefaultHtml: set<string> := {"/index", "/register", "/login", "/welcome", "/video", "/picture"}

  /** `DEFAULT_HTML_TAG`: the form pages, 0 for registering and 1 for logging in. */
  const DefaultHtmlTag: map<string, int> := map["/register.html" := 0, "/login.html" := 1]

  /** The rewrite of `ParsePath_`: "/" is the index page, a known page gets ".html". */
  function RewritePath(path: string): string
  {
    if path == "/" then "/index.html"
    else if path in DefaultHtml then path + ".html"
    else path
  }

  /** The rewrite changes exactly "/" and the six short page names, and each of them to a
      page that ends in ".html". */
  lemma RewritePathCases(path: string)
    ensures path == "/" ==> RewritePath(path) == "/index.html"
    ensures path in DefaultHtml ==> RewritePath(path) == path + ".html"
    ensures path != "/" && path !in DefaultHtml ==> RewritePath(path) == path
    ensures RewritePath(path) != path <==> path == "/" || path in DefaultHtml
  {
  }

  /** Rewriting is idempotent: no rewritten path is rewritten again. */
  lemma RewritePathIdempotent(path: string)
    ensures RewritePath(RewritePath(path)) == RewritePath(path)
  {
    if path in DefaultHtml {
      var q := path + ".html";
      assert q[|q| - 5..] == ".html";
      assert q !in DefaultHtml by {
        forall d | d in DefaultHtml ensures d != q {
          assert |d| < 5 || d[|d| - 5..] != ".html";
        }
      }
      assert q != "/";
    } else if path == "/" {
      assert "/index.html" !in DefaultHtml;
    }
  }

  // ---------------------------------------------------------------------------
  // Byte arithmetic of the form decoder
  // ---------------------------------------------------------------------------

  /** The value of a `char` byte under the source's signed `char` (two's complement). */
  function SignedChar(c: char): (v: int)
    ensures -128 <= v < 128
    ensures (c as int) < 128 ==> v == c as int
  {
    var b := (c as int) % 256;
    if b >= 128 then b - 256 else b
  }

  /** Storing an `int` into a `char`: the value is reduced to its low byte. */
  function ByteChar(x: int): (c: char)
    ensures (c as int) < 256 && ((c as int) - x) % 256 == 0
  {
    (x % 256) as char
  }

  /** C++ integer division, which truncates toward zero (Dafny's `/` is Euclidean). */
  function CDiv(a: int, b: int): (q: int)
    requires b > 0
    ensures a >= 0 ==> q == a / b
    ensures a < 0 ==> q == -((-a) / b)
  {
    if a >= 0 then a / b else -((-a) / b)
  }

  /** C++ `%`, whose result has the sign of the dividend. */
  function CMod(a: int, b: int): (r: int)
    requires b > 0
    ensures a == CDiv(a, b) * b + r
    ensures a >= 0 ==> 0 <= r < b
    ensures a < 0 ==> -b < r <= 0
  {
    a - CDiv(a, b) * b
  }

  /** `ConverHex`: the value of a hex letter A-F or a-f; any other byte, digits included,
      is returned as its own signed character code. */
  function ConverHex(ch: char): (v: int)
    ensures 'A' <= ch <= 'F' ==> v == ch as int - 'A' as int + 10
    ensures 'a' <= ch <= 'f' ==> v == ch as int - 'a' as int + 10
    ensures !('A' <= ch <= 'F') && !('a' <= ch <= 'f') ==> v == SignedChar(ch)
    ensures -128 <= v < 128
  {
    if 'A' <= ch <= 'F' then ch as int - 'A' as int + 10
    else if 'a' <= ch <= 'f' then ch as int - 'a' as int + 10
    else SignedChar(ch)
  }

  // ---------------------------------------------------------------------------
  // The form decoder (ParseFromUrlencoded_)
  // ---------------------------------------------------------------------------

  /** The variables of the decoding loop: the body being rewritten in place, the scan index
      `i`, the start `j` of the pending field, the pending key and the decoded pairs. */
  datatype FormState = FormState(body: string, i: nat, j: nat, key: string, post: map<string, string>)

  ghost predicate FormInv(s: FormState)
  {
    s.j <= s.i <= |s.body|
  }

  /** One iteration of the decoding loop at index `i`.  An escape `%XY` is overwritten with
      two decimal digits and skipped.  When the escape has fewer than two characters after
      it, the source reads and writes past the end of the body (undefined behaviour), given
      here as `None`; with `checked`, such a '%' is kept as an ordinary character instead. */
  function FormStep(s: FormState, checked: bool): (r: Option<FormState>)
    requires FormInv(s) && s.i < |s.body|
    ensures checked ==> r.Some?
    ensures r.Some? ==> FormInv(r.value) && |r.value.body| == |s.body| && r.value.i > s.i
  {
    var b, i := s.body, s.i;
    match b[i]
    case '=' => Some(s.(key := b[s.j..i], j := i + 1, i := i + 1))
    case '+' => Some(s.(body := b[i := ' '], i := i + 1))
    case '%' =>
      if i + 2 < |b| then
        var num := ConverHex(b[i + 1]) * 16 + ConverHex(b[i + 2]);
        var b' := b[i + 2 := ByteChar(CMod(num, 10) + '0' as int)][i + 1 := ByteChar(CDiv(num, 10) + '0' as int)];
        Some(s.(body := b', i := i + 3))
      else if checked then Some(s.(i := i + 1))
      else None
    case '&' => Some(s.(post := s.post[s.key := b[s.j..i]], j := i + 1, i := i + 1))
    case _ => Some(s.(i := i + 1))
  }

  /** A hex letter, upper or lower case: the bytes `ConverHex` gives 10..15. */
  predicate HexLetter(ch: char)
  {
    'A' <= ch <= 'F' || 'a' <= ch <= 'f'
  }

  /** The bytes the decoder stores for an escape of two hex letters: their value `num` is
      170..255, the units digit goes where Y was and `num / 10 + '0'`, a letter from 'A'
      to 'I', where X was. */
  lemma HexEscapeBytes(x: char, y: char)
    requires HexLetter(x) && HexLetter(y)
    ensures var num := ConverHex(x) * 16 + ConverHex(y);
            && 170 <= num <= 255
            && ByteChar(CMod(num, 10) + '0' as int) == (num % 10 + '0' as int) as char
            && ByteChar(CDiv(num, 10) + '0' as int) == (num / 10 + '0' as int) as char
            && 'A' <= (num / 10 + '0' as int) as char <= 'I'
  {
  }

  /** What the decoding loop does to an escape `%XY` of two hex letters.  Its value `num`
      is 170..255, which does not fit two decimal digits: the byte where Y was becomes the
      units digit of `num`, the byte where X was becomes `num / 10 + '0'`, a letter from 'A'
      to 'I' (so "%FF" is rewritten to "%I5"), and the scan resumes after the escape with
      nothing else changed. */
  lemma EscapeRewriteHexLetters(s: FormState, checked: bool)
    requires FormInv(s) && s.i + 2 < |s.body| && s.body[s.i] == '%'
    requires HexLetter(s.body[s.i + 1]) && HexLetter(s.body[s.i + 2])
    ensures FormStep(s, checked).Some?
    ensures var t := FormStep(s, checked).value;
            t.i == s.i + 3 && t.j == s.j && t.key == s.key && t.post == s.post && |t.body| == |s.body|
    ensures var t := FormStep(s, checked).value;
            var num := ConverHex(s.body[s.i + 1]) * 16 + ConverHex(s.body[s.i + 2]);
            && t.body[s.i + 1] == (num / 10 + '0' as int) as char && 'A' <= t.body[s.i + 1] <= 'I'
            && t.body[s.i + 2] == (num % 10 + '0' as int) as char && '0' <= t.body[s.i + 2] <= '9'
    ensures var t := FormStep(s, checked).value;
            forall k :: 0 <= k < |s.body| && k != s.i + 1 && k != s.i + 2 ==> t.body[k] == s.body[k]
  {
    HexEscapeBytes(s.body[s.i + 1], s.body[s.i + 2]);
  }

  /** The decoding loop from state `s` to the end of the body. */
  function FormRun(s: FormState, checked: bool): (r: Option<FormState>)
    requires FormInv(s)
    ensures checked ==> r.Some?
    ensures r.Some? ==> FormInv(r.value) && r.value.i == |r.value.body| == |s.body|
    decreases |s.body| - s.i
  {
    if s.i >= |s.body| then Some(s)
    else
      match FormStep(s, checked)
      case None => None
      case Some(t) => FormRun(t, checked)
  }

  /** After the loop: the trailing field is stored only if its key is new and it is not empty. */
  function FormFinish(s: FormState): map<string, string>
    requires FormInv(s)
  {
    if s.key !in s.post && s.j < s.i then s.post[s.key := s.body[s.j..s.i]] else s.post
  }

  /** The whole decoder on `body`, adding to the pairs `post`: the rewritten body and the
      pairs, or `None` when the source's run would be undefined. */
  function DecodeForm(body: string, post: map<string, string>, checked: bool): (r: Option<(string, map<string, string>)>)
    ensures checked ==> r.Some?
    ensures r.Some? ==> |r.value.0| == |body|
  {
    if |body| == 0 then Some((body, post))
    else
      match FormRun(FormState(body, 0, 0, "", post), checked)
      case None => None
      case Some(t) => Some((t.body, FormFinish(t)))
  }

  /** The decoder the model uses: as the source, but an escape cut short by the end of the
      body is kept as it is. */
  function Urlencoded(body: string, post: map<string, string>): (r: (string, map<string, string>))
    ensures |r.0| == |body|
  {
    DecodeForm(body, post, true).value
  }

  /** Wherever the source's decoder is defined, it agrees with the model's. */
  lemma {:induction false} FormRunAgrees(s: FormState)
    requires FormInv(s) && FormRun(s, false).Some?
    ensures FormRun(s, false) == FormRun(s, true)
    decreases |s.body| - s.i
  {
    if s.i < |s.body| {
      var t := FormStep(s, false).value;
      assert FormStep(s, true) == Some(t);
      FormRunAgrees(t);
    }
  }

  lemma DecodeFormAgrees(body: string, post: map<string, string>)
    requires DecodeForm(body, post, false).Some?
    ensures DecodeForm(body, post, false) == Some(Urlencoded(body, post))
  {
    if |body| > 0 {
      FormRunAgrees(FormState(body, 0, 0, "", post));
    }
  }

  /** A '%' among the last two characters makes the source's decoder read and write past
      the end of the body; the model keeps the '%' and stores the field. */
  lemma TrailingPercentCounterexample()
    ensures DecodeForm("a=%", map[], false) == None
    ensures Urlencoded("a=%", map[]) == ("a=%", map["a" := "%"])
  {
    var s0 := FormState("a=%", 0, 0, "", map[]);
    var s1 := FormState("a=%", 1, 0, "", map[]);
    var s2 := FormState("a=%", 2, 2, "a", map[]);
    var s3 := FormState("a=%", 3, 2, "a", map[]);
    assert "a=%"[1] == '=' && "a=%"[0..1] == "a" && "a=%"[2] == '%';
    assert FormStep(s0, false) == Some(s1);
    assert FormStep(s1, false) == Some(s2);
    assert FormStep(s2, false) == None;
    assert FormRun(s2, false) == None;
    assert FormRun(s0, false) == FormRun(s1, false) == FormRun(s2, false);
    assert FormStep(s0, true) == Some(s1);
    assert FormStep(s1, true) == Some(s2);
    assert FormStep(s2, true) == Some(s3);
    assert FormRun(s0, true) == Some(s3);
    assert "a=%"[2..3] == "%";
  }

  // --- Round trip: encoding plain pairs and decoding them gives the pairs back ---

  /** A key or value the decoder leaves alone: none of '=', '&', '+', '%'. */
  predicate Plain(s: string)
  {
    forall k :: 0 <= k < |s| ==> s[k] != '=' && s[k] != '&' && s[k] != '+' && s[k] != '%'
  }

  /** Every key and every value of the pairs is plain. */
  predicate PlainPairs(pairs: seq<(string, string)>)
  {
    forall k :: 0 <= k < |pairs| ==> Plain(pairs[k].0) && Plain(pairs[k].1)
  }

  /** "k1=v1&k2=v2&...", the form encoding of a list of pairs. */
  function EncodeForm(pairs: seq<(string, string)>): string
    requires |pairs| > 0
  {
    pairs[0].0 + "=" + pairs[0].1 + (if |pairs| == 1 then "" else "&" + EncodeForm(pairs[1..]))
  }

  /** The pairs as a map, a later pair overriding an earlier one. */
  function PairsMap(pairs: seq<(string, string)>, post: map<string, string>): map<string, string>
  {
    if |pairs| == 0 then post else PairsMap(pairs[1..], post[pairs[0].0 := pairs[0].1])
  }


  /** Scanning plain characters only advances `i`. */
  lemma {:induction false} FormRunPlain(s: FormState, e: nat)
    requires FormInv(s) && s.i <= e <= |s.body| && Plain(s.body[s.i..e])
    ensures FormRun(s, true) == FormRun(s.(i := e), true)
    decreases e - s.i
  {
    if s.i < e {
      assert s.body[s.i] == s.body[s.i..e][0];
      assert FormStep(s, true) == Some(s.(i := s.i + 1));
      FormRunPlain(s.(i := s.i + 1), e);
    }
  }

  /** An '=' makes the text since the start of the field the pending key. */
  lemma FormRunEquals(body: string, a: nat, j: nat, key: string, post: map<string, string>)
    requires j <= a < |body| && body[a] == '='
    ensures FormRun(FormState(body, a, j, key, post), true)
         == FormRun(FormState(body, a + 1, a + 1, body[j..a], post), true)
  {
    assert FormStep(FormState(body, a, j, key, post), true)
        == Some(FormState(body, a + 1, a + 1, body[j..a], post));
  }

  /** Scanning one plain field "k=v" (k from `i`, '=' at `a`, v up to `c`) sets the pending
      key to k and leaves v pending. */
  lemma FormRunField(body: string, i: nat, a: nat, c: nat, key: string, post: map<string, string>)
    requires i <= a < c <= |body| && body[a] == '=' && Plain(body[i..a]) && Plain(body[a + 1..c])
    ensures FormRun(FormState(body, i, i, key, post), true)
         == FormRun(FormState(body, c, a + 1, body[i..a], post), true)
  {
    FormRunPlain(FormState(body, i, i, key, post), a);
    FormRunEquals(body, a, i, key, post);
    FormRunPlain(FormState(body, a + 1, a + 1, body[i..a], post), c);
  }

  /** An '&' stores the pending field under the pending key. */
  lemma FormRunAmp(body: string, c: nat, j: nat, key: string, post: map<string, string>)
    requires j <= c < |body| && body[c] == '&'
    ensures FormRun(FormState(body, c, j, key, post), true)
         == FormRun(FormState(body, c + 1, c + 1, key, post[key := body[j..c]]), true)
  {
    assert FormStep(FormState(body, c, j, key, post), true)
        == Some(FormState(body, c + 1, c + 1, key, post[key := body[j..c]]));
  }

  /** No key occurs twice. */
  predicate DistinctKeys(pairs: seq<(string, string)>)
  {
    forall a, b :: 0 <= a < b < |pairs| ==> pairs[a].0 != pairs[b].0
  }

  /** Scanning a plain field "k=v&" from its start stores it and moves on after the '&'. */
  lemma FormRunFieldAmp(body: string, i: nat, a: nat, c: nat, k: string, v: string, key: string, post: map<string, string>)
    requires i <= a < c < |body| && body[a] == '=' && body[c] == '&'
    requires body[i..a] == k && body[a + 1..c] == v && Plain(k) && Plain(v)
    ensures FormRun(FormState(body, i, i, key, post), true)
         == FormRun(FormState(body, c + 1, c + 1, k, post[k := v]), true)
  {
    FormRunField(body, i, a, c, key, post);
    FormRunAmp(body, c, a + 1, k, post);
  }

  /** Where the encoding of a single pair starts, the body ends with "k=v". */
  lemma EncodedLast(body: string, i: nat, pairs: seq<(string, string)>)
    requires |pairs| == 1 && i <= |body| && body[i..] == EncodeForm(pairs)
    ensures var a := i + |pairs[0].0|;
            && a < |body| && body[i..a] == pairs[0].0 && body[a] == '=' && body[a + 1..] == pairs[0].1
  {
    var k, v := pairs[0].0, pairs[0].1;
    var e := EncodeForm(pairs);
    assert e == k + "=" + v + "";
    assert e[..|k|] == k && e[|k|] == '=' && e[|k| + 1..] == v;
    assert body[i..i + |k|] == e[..|k|];
    assert body[i + |k| + 1..] == e[|k| + 1..];
  }

  /** Where the encoding of several pairs starts, the body holds "k=v&" and then the
      encoding of the other pairs. */
  lemma EncodedSplit(body: string, i: nat, pairs: seq<(string, string)>)
    requires |pairs| > 1 && i <= |body| && body[i..] == EncodeForm(pairs)
    ensures var a := i + |pairs[0].0|;
            var c := a + 1 + |pairs[0].1|;
            && c < |body| && body[i..a] == pairs[0].0 && body[a] == '=' && body[a + 1..c] == pairs[0].1
            && body[c] == '&' && body[c + 1..] == EncodeForm(pairs[1..])
  {
    var k, v := pairs[0].0, pairs[0].1;
    var e := EncodeForm(pairs);
    var n := |k| + 1 + |v|;
    assert e == (k + "=" + v) + ("&" + EncodeForm(pairs[1..]));
    assert e[..|k|] == k && e[|k|] == '=' && e[|k| + 1..n] == v && e[n] == '&';
    assert e[n + 1..] == EncodeForm(pairs[1..]);
    assert body[i..i + |k|] == e[..|k|];
    assert body[i + |k| + 1..i + n] == e[|k| + 1..n];
    assert body[i + n + 1..] == e[n + 1..];
  }

  /** The side conditions of the round trip carry over to the pairs after the first. */
  lemma RestOfPairs(pairs: seq<(string, string)>)
    requires |pairs| > 1 && DistinctKeys(pairs)
    requires PlainPairs(pairs)
    ensures var rest := pairs[1..];
            && DistinctKeys(rest)
            && PlainPairs(rest)
            && rest[|rest| - 1] == pairs[|pairs| - 1]
            && pairs[0].0 != pairs[|pairs| - 1].0
  {
    var rest := pairs[1..];
    forall x, y | 0 <= x < y < |rest|
      ensures rest[x].0 != rest[y].0
    {
      assert rest[x] == pairs[x + 1] && rest[y] == pairs[y + 1];
    }
    forall i | 0 <= i < |rest|
      ensures Plain(rest[i].0) && Plain(rest[i].1)
    {
      assert rest[i] == pairs[i + 1];
    }
  }

  /** `body` holds, from index `i` to its end, "k1=v1&...&kn=vn" for the pairs, read field
      by field. */
  ghost predicate EncodedAt(body: string, i: nat, pairs: seq<(string, string)>)
    decreases |pairs|
  {
    && |pairs| > 0
    && var a := i + |pairs[0].0|;
       var c := a + 1 + |pairs[0].1|;
       && c <= |body| && body[i..a] == pairs[0].0 && body[a] == '=' && body[a + 1..c] == pairs[0].1
       && if |pairs| == 1 then c == |body|
          else c < |body| && body[c] == '&' && EncodedAt(body, c + 1, pairs[1..])
  }

  /** The encoding of the pairs, placed at `i`, is read field by field. */
  lemma {:induction false} EncodingIsEncodedAt(body: string, i: nat, pairs: seq<(string, string)>)
    requires |pairs| > 0 && i <= |body| && body[i..] == EncodeForm(pairs)
    ensures EncodedAt(body, i, pairs)
    decreases |pairs|
  {
    if |pairs| == 1 {
      EncodedLast(body, i, pairs);
      assert body[i + |pairs[0].0| + 1..|body|] == body[i + |pairs[0].0| + 1..];
    } else {
      EncodedSplit(body, i, pairs);
      EncodingIsEncodedAt(body, i + |pairs[0].0| + 1 + |pairs[0].1| + 1, pairs[1..]);
    }
  }

  /** Decoding a last field "k=v" that runs to the end of the body adds it to `post`. */
  lemma FormRunEncodedLast(body: string, i: nat, pairs: seq<(string, string)>, key: string, post: map<string, string>)
    requires |pairs| == 1 && EncodedAt(body, i, pairs)
    requires Plain(pairs[0].0) && Plain(pairs[0].1) && pairs[0].1 != "" && pairs[0].0 !in post
    ensures var r := FormRun(FormState(body, i, i, key, post), true);
            r.Some? && r.value.body == body && FormFinish(r.value) == PairsMap(pairs, post)
  {
    var k, v := pairs[0].0, pairs[0].1;
    var a := i + |k|;
    var c := a + 1 + |v|;
    FormRunField(body, i, a, c, key, post);
    var t := FormState(body, c, a + 1, k, post);
    assert FormRun(t, true) == Some(t);
    assert PairsMap(pairs, post) == PairsMap([], post[k := v]);
  }

  /** The side conditions of the round trip, after the first pair is stored in `post`. */
  lemma RestOfPairsStored(pairs: seq<(string, string)>, post: map<string, string>)
    requires |pairs| > 1 && DistinctKeys(pairs)
    requires PlainPairs(pairs)
    requires pairs[|pairs| - 1].1 != "" && pairs[|pairs| - 1].0 !in post
    ensures var rest := pairs[1..];
            && DistinctKeys(rest)
            && PlainPairs(rest)
            && rest[|rest| - 1].1 != "" && rest[|rest| - 1].0 !in post[pairs[0].0 := pairs[0].1]
  {
    RestOfPairs(pairs);
  }

  /** Decoding from where the encoding of `pairs` starts adds the pairs to `post`. */
  lemma {:induction false} FormRunEncoded(body: string, i: nat, pairs: seq<(string, string)>, key: string, post: map<string, string>)
    requires EncodedAt(body, i, pairs) && DistinctKeys(pairs)
    requires PlainPairs(pairs)
    requires pairs[|pairs| - 1].1 != "" && pairs[|pairs| - 1].0 !in post
    ensures var r := FormRun(FormState(body, i, i, key, post), true);
            r.Some? && r.value.body == body && FormFinish(r.value) == PairsMap(pairs, post)
    decreases |pairs|
  {
    if |pairs| == 1 {
      FormRunEncodedLast(body, i, pairs, key, post);
    } else {
      var k, v := pairs[0].0, pairs[0].1;
      var a := i + |k|;
      var c := a + 1 + |v|;
      var rest, stored := pairs[1..], post[k := v];
      assert Plain(k) && Plain(v);
      FormRunFieldAmp(body, i, a, c, k, v, key, post);
      RestOfPairsStored(pairs, post);
      FormRunEncoded(body, c + 1, rest, k, stored);
      assert PairsMap(pairs, post) == PairsMap(rest, stored);
    }
  }

  /** The round trip of the form codec: distinct plain keys, plain values and a non-empty last
      value are decoded to the map of the pairs, and the body is left as it was. */
  lemma FormRoundTrip(pairs: seq<(string, string)>)
    requires |pairs| > 0 && DistinctKeys(pairs)
    requires PlainPairs(pairs)
    requires pairs[|pairs| - 1].1 != ""
    ensures Urlencoded(EncodeForm(pairs), map[]) == (EncodeForm(pairs), PairsMap(pairs, map[]))
  {
    var body := EncodeForm(pairs);
    assert body[0..] == body;
    EncodingIsEncodedAt(body, 0, pairs);
    FormRunEncoded(body, 0, pairs, "", map[]);
  }
}
