/** The small input helpers of InvenTree/InvenTree/helpers.py: `str2bool`,
    `WrapWithQuotes`, `TestIfImageURL`, `MakeBarcode` and
    `GetExportFormats`. */
module Helpers {
  import opened Strings
  import opened Ordering

  // ---------------------------------------------------------------------
  // str2bool

  /** The lower-case spellings `str2bool` recognises as true and as false. */
  const TrueWords: seq<string> := ["1", "y", "yes", "t", "true", "ok", "on"]
  const FalseWords: seq<string> := ["0", "n", "no", "none", "f", "false", "off"]

  /** `str2bool(text, test)`: does the text, lower-cased, spell the boolean
      value `test`? */
  function Str2Bool(text: string, test: bool): (r: bool)
    ensures r ==> Lower(text) in TrueWords + FalseWords
  {
    if test then Lower(text) in TrueWords else Lower(text) in FalseWords
  }

  /** No text looks both true and false: the two word lists are disjoint. */
  lemma Str2BoolExclusive(text: string)
    ensures !(Str2Bool(text, true) && Str2Bool(text, false))
  {
    forall w | w in TrueWords
      ensures w !in FalseWords
    {
    }
  }

  /** Case does not matter. */
  lemma Str2BoolCaseInsensitive(text: string, test: bool)
    ensures Str2Bool(Lower(text), test) == Str2Bool(text, test)
  {
    LowerIdempotent(text);
  }

  /** Every true spelling passes the test for true and every false spelling
      the test for false, whatever its case. With `Str2BoolExclusive` and the
      contract of `Str2Bool`, a test passes exactly for its own spellings. */
  lemma Str2BoolRecognised(text: string)
    ensures Lower(text) in TrueWords ==> Str2Bool(text, true) && !Str2Bool(text, false)
    ensures Lower(text) in FalseWords ==> Str2Bool(text, false) && !Str2Bool(text, true)
  {
    Str2BoolExclusive(text);
  }

  /** Text that is neither spelling is false for both tests. */
  lemma Str2BoolUnrecognised(text: string)
    requires forall w :: w in TrueWords + FalseWords ==> Lower(text) != w
    ensures !Str2Bool(text, true) && !Str2Bool(text, false)
  {
  }

  lemma Str2BoolExamples()
    ensures Str2Bool("tRuE", true) && !Str2Bool("tRuE", false)
    ensures Str2Bool("noNE", false) && !Str2Bool("noNE", true)
    ensures !Str2Bool("wombat", true) && !Str2Bool("wombat", false)
    ensures !Str2Bool("", true) && !Str2Bool("", false)
  {
    assert Lower("tRuE") == "true";
    assert Lower("noNE") == "none";
    assert Lower("wombat") == "wombat";
    assert Lower("") == "";
  }

  // ---------------------------------------------------------------------
  // WrapWithQuotes

  /** `WrapWithQuotes(text, quote)`: the text with the quote added at the
      front and at the back where it is not there already. */
  function WrapWithQuotes(text: string, quote: string): (r: string)
    ensures StartsWith(r, quote) && EndsWith(r, quote)
    ensures StartsWith(text, quote) && EndsWith(text, quote) ==> r == text
    ensures r == text || r == quote + text || r == text + quote || r == quote + text + quote
    ensures StartsWith(text, quote) ==> StartsWith(r, text)
    ensures StartsWith(text, quote) ==> r == text || r == text + quote
    ensures EndsWith(text, quote) ==> r == text || r == quote + text
  {
    var front := if StartsWith(text, quote) then text else quote + text;
    assert StartsWith(front, quote);
    assert EndsWith(text, quote) ==> front[|front| - |quote|..] == text[|text| - |quote|..];
    if EndsWith(front, quote) then front
    else
      assert (front + quote)[..|quote|] == front[..|quote|];
      front + quote
  }

  /** Wrapping twice is wrapping once. */
  lemma WrapWithQuotesIdempotent(text: string, quote: string)
    ensures WrapWithQuotes(WrapWithQuotes(text, quote), quote) == WrapWithQuotes(text, quote)
  {
  }

  /** Empty text becomes the quote alone. */
  lemma WrapEmpty(quote: string)
    ensures WrapWithQuotes("", quote) == quote
  {
    if |quote| > 0 {
      assert !StartsWith("", quote);
      assert quote + "" == quote;
    }
  }

  lemma WrapExamples()
    ensures WrapWithQuotes("hello", "\"") == "\"hello\""
    ensures WrapWithQuotes("hello\"", "\"") == "\"hello\""
  {
    assert "hello"[..1][0] != '"';
    assert "hello\""[..1][0] != '"';
    assert !EndsWith("\"hello", "\"");
    assert EndsWith("\"hello\"", "\"");
  }

  // ---------------------------------------------------------------------
  // TestIfImageURL

  /** The image file extensions accepted, lower case. */
  const ImageExtensions: seq<string> := [".jpg", ".jpeg", ".png", ".bmp", ".tif", ".tiff", ".webp", ".gif"]

  /** `s.rfind(c)`: the last position of `c`, or -1. */
  function LastIndex(s: string, c: char): (r: int)
    ensures -1 <= r < |s|
    ensures r >= 0 ==> s[r] == c
    ensures forall k :: r < k < |s| ==> s[k] != c
  {
    if |s| == 0 then -1
    else if s[|s| - 1] == c then |s| - 1
    else LastIndex(s[..|s| - 1], c)
  }

  /** The last occurrence is the only one with none after it. */
  lemma LastIndexUnique(s: string, c: char, i: int)
    requires 0 <= i < |s| && s[i] == c
    requires forall k :: i < k < |s| ==> s[k] != c
    ensures LastIndex(s, c) == i
  {
  }

  lemma LastIndexAbsent(s: string, c: char)
    requires c !in s
    ensures LastIndex(s, c) == -1
  {
  }

  /** `os.path.basename(p)` for '/'-separated paths: the text after the last
      '/'. */
  function Basename(p: string): (r: string)
    ensures '/' !in r
    ensures EndsWith(p, r)
  {
    p[LastIndex(p, '/') + 1..]
  }

  /** The basename starts right after the last '/' (or is the whole path),
      so with the contract of `Basename` it is the longest suffix free of
      '/'. */
  lemma BasenameAfterSlash(p: string)
    ensures var r := Basename(p); |r| == |p| || p[|p| - |r| - 1] == '/'
  {
  }

  predicate HasNonDot(s: string) {
    exists k :: 0 <= k < |s| && s[k] != '.'
  }

  /** The extension `os.path.splitext(p)[-1]`: from the last '.' after the
      last '/', provided a character other than '.' precedes it in the
      final component (so ".png" and "..png" have none); otherwise empty. */
  function Extension(p: string): (r: string)
    ensures r == "" || (r[0] == '.' && EndsWith(p, r) && '/' !in r)
    ensures r != "" ==> LastIndex(p, '.') == |p| - |r|
    ensures r != "" ==> HasNonDot(p[LastIndex(p, '/') + 1..|p| - |r|])
  {
    var sep := LastIndex(p, '/');
    var dot := LastIndex(p, '.');
    if dot > sep && HasNonDot(p[sep + 1..dot]) then
      TailLacks(p, dot, '/');
      p[dot..]
    else ""
  }

  /** The extension is present exactly when the last '.' comes after the
      last '/' and something other than '.' precedes it in the final
      component. */
  lemma ExtensionPresentIff(p: string)
    ensures var sep := LastIndex(p, '/'); var dot := LastIndex(p, '.');
      Extension(p) != "" <==> dot > sep && HasNonDot(p[sep + 1..dot])
  {
  }

  /** A character absent from every position from `i` on is absent from the
      tail `s[i..]`, which ends `s`. */
  lemma TailLacks(s: string, i: int, c: char)
    requires 0 <= i <= |s|
    requires forall k :: i <= k < |s| ==> s[k] != c
    ensures c !in s[i..] && EndsWith(s, s[i..]) && |s[i..]| == |s| - i
  {
    assert forall j :: 0 <= j < |s[i..]| ==> s[i..][j] == s[i + j];
  }

  /** `TestIfImageURL(url)`. */
  function TestIfImageURL(url: string): bool {
    Lower(Extension(Basename(url))) in ImageExtensions
  }

  /** Every listed extension is a '.' followed by no further '.'. */
  lemma ImageExtensionShape(e: string)
    requires e in ImageExtensions
    ensures |e| >= 2 && e[0] == '.' && forall k :: 1 <= k < |e| ==> e[k] != '.'
  {
  }

  lemma LowerSuffix(s: string, i: int)
    requires 0 <= i <= |s|
    ensures Lower(s[i..]) == Lower(s)[i..]
  {
  }

  /** The reference reading of the rule: the lower-cased file name ends with
      a listed extension, and the name has some character other than '.'
      before it. */
  lemma TestIfImageURLIff(url: string)
    ensures TestIfImageURL(url) <==>
      exists e :: e in ImageExtensions && EndsWith(Lower(Basename(url)), e)
                  && HasNonDot(Basename(url)[..|Basename(url)| - |e|])
  {
    var b := Basename(url);
    if TestIfImageURL(url) {
      ImageURLHasExtension(url);
      var e := Lower(Extension(b));
      assert e in ImageExtensions && EndsWith(Lower(b), e) && HasNonDot(b[..|b| - |e|]);
    } else {
      forall e | e in ImageExtensions && EndsWith(Lower(b), e)
        ensures !HasNonDot(b[..|b| - |e|])
      {
        if HasNonDot(b[..|b| - |e|]) {
          ExtensionIsImage(url, e);
          assert false;
        }
      }
    }
  }

  lemma ImageURLHasExtension(url: string)
    requires TestIfImageURL(url)
    ensures var b := Basename(url); var e := Lower(Extension(b));
      e in ImageExtensions && EndsWith(Lower(b), e) && HasNonDot(b[..|b| - |e|])
  {
    var b := Basename(url);
    LastIndexAbsent(b, '/');
    var x := Extension(b);
    assert x != "";
    LowerSuffix(b, |b| - |x|);
  }

  lemma ExtensionIsImage(url: string, e: string)
    requires var b := Basename(url);
      e in ImageExtensions && EndsWith(Lower(b), e) && HasNonDot(b[..|b| - |e|])
    ensures TestIfImageURL(url)
  {
    var b := Basename(url);
    LastIndexAbsent(b, '/');
    ImageExtensionShape(e);
    var d := |b| - |e|;
    var lb := Lower(b);
    assert lb[d..] == e;
    assert lb[d] == e[0];
    assert b[d] == '.';
    forall k | d < k < |b|
      ensures b[k] != '.'
    {
      assert lb[d..][k - d] == lb[k];
      assert LowerChar(b[k]) == lb[k];
    }
    LastIndexUnique(b, '.', d);
    assert Extension(b) == b[d..];
    LowerSuffix(b, d);
  }

  /** Case does not matter. */
  lemma TestIfImageURLCaseInsensitive(url: string)
    ensures TestIfImageURL(Lower(url)) == TestIfImageURL(url)
  {
    var b := Basename(url);
    BasenameLower(url);
    ExtensionLower(b);
    LowerIdempotent(Extension(b));
  }

  lemma {:induction false} LastIndexLower(s: string, c: char)
    requires c == '.' || c == '/'
    ensures LastIndex(Lower(s), c) == LastIndex(s, c)
  {
    var i := LastIndex(s, c);
    if i >= 0 {
      LastIndexUnique(Lower(s), c, i);
    } else {
      assert forall k :: 0 <= k < |s| ==> Lower(s)[k] != c;
      LastIndexAbsent(Lower(s), c);
    }
  }

  lemma BasenameLower(url: string)
    ensures Basename(Lower(url)) == Lower(Basename(url))
  {
    LastIndexLower(url, '/');
    LowerSuffix(url, LastIndex(url, '/') + 1);
  }

  /** Lower-casing keeps every '.' and adds none. */
  lemma HasNonDotLower(p: string, lo: int, hi: int)
    requires 0 <= lo <= hi <= |p|
    ensures HasNonDot(Lower(p)[lo..hi]) <==> HasNonDot(p[lo..hi])
  {
    var lp := Lower(p);
    if HasNonDot(p[lo..hi]) {
      var k :| 0 <= k < hi - lo && p[lo..hi][k] != '.';
      assert lp[lo..hi][k] == LowerChar(p[lo + k]);
    }
    if HasNonDot(lp[lo..hi]) {
      var k :| 0 <= k < hi - lo && lp[lo..hi][k] != '.';
      assert lp[lo..hi][k] == LowerChar(p[lo + k]);
      assert p[lo..hi][k] != '.';
    }
  }

  lemma ExtensionLower(p: string)
    ensures Extension(Lower(p)) == Lower(Extension(p))
  {
    LastIndexLower(p, '/');
    LastIndexLower(p, '.');
    var sep := LastIndex(p, '/');
    var dot := LastIndex(p, '.');
    if dot > sep {
      HasNonDotLower(p, sep + 1, dot);
      LowerSuffix(p, dot);
    }
  }

  /** A mixed-case image extension is accepted. */
  lemma ImageURLExampleGif()
    ensures TestIfImageURL("bat.GiF")
  {
    LastIndexAbsent("bat.GiF", '/');
    assert Basename("bat.GiF") == "bat.GiF";
    LastIndexUnique("bat.GiF", '.', 3);
    assert "bat.GiF"[0..3][0] != '.';
    assert Extension("bat.GiF") == ".GiF";
    assert Lower(".GiF") == ".gif";
  }

  /** A file name without a dot has no extension, whatever it ends with. */
  lemma NoDotIsNotImage(url: string)
    requires '.' !in Basename(url)
    ensures !TestIfImageURL(url)
  {
    LastIndexAbsent(Basename(url), '.');
  }

  /** A leading dot does not start an extension: ".png" is a bare name. */
  lemma DotFileIsNotImage(url: string)
    requires var b := Basename(url); |b| > 0 && b[0] == '.' && '.' !in b[1..]
    ensures !TestIfImageURL(url)
  {
    var b := Basename(url);
    LastIndexAbsent(b, '/');
    forall k | 0 < k < |b|
      ensures b[k] != '.'
    {
      assert b[1..][k - 1] == b[k];
    }
    LastIndexUnique(b, '.', 0);
  }

  lemma ImageURLExampleNoDot()
    ensures !TestIfImageURL("whatpng")
  {
    LastIndexAbsent("whatpng", '/');
    assert Basename("whatpng") == "whatpng";
    NoDotIsNotImage("whatpng");
  }

  // ---------------------------------------------------------------------
  // GetExportFormats

  /** The file formats data can be exported to: bare extension names, each
      listed once. */
  function GetExportFormats(): (r: seq<string>)
    ensures |r| == 6
    ensures forall i, j :: 0 <= i < j < |r| ==> r[i] != r[j]
    ensures forall i :: 0 <= i < |r| ==> |r[i]| > 0 && '.' !in r[i] && Lower(r[i]) == r[i]
  {
    var r := ["csv", "tsv", "xls", "xlsx", "json", "yaml"];
    assert Lower("csv") == "csv" && Lower("tsv") == "tsv" && Lower("xls") == "xls";
    assert Lower("xlsx") == "xlsx" && Lower("json") == "json" && Lower("yaml") == "yaml";
    r
  }

  // ---------------------------------------------------------------------
  // MakeBarcode

  /** The values a barcode's data may hold. */
  datatype JsonValue = JStr(s: string) | JInt(i: int)

  /** The caller's `data` dict, which `MakeBarcode` updates in place. */
  class JsonObject {
    var entries: map<string, JsonValue>

    constructor (entries: map<string, JsonValue>)
      ensures this.entries == entries
    {
      this.entries := entries;
    }
  }

  /** The dict after the four InvenTree keys are written into it. */
  function WithBarcodeKeys(data: map<string, JsonValue>, objectType: string, objectId: int, objectUrl: string)
    : (r: map<string, JsonValue>)
    ensures r.Keys == data.Keys + {"type", "id", "url", "tool"}
    ensures r["type"] == JStr(objectType) && r["id"] == JInt(objectId)
    ensures r["url"] == JStr(objectUrl) && r["tool"] == JStr("InvenTree")
    ensures forall k :: k in data && k !in {"type", "id", "url", "tool"} ==> r[k] == data[k]
  {
    data["type" := JStr(objectType)]["id" := JInt(objectId)]["url" := JStr(objectUrl)]["tool" := JStr("InvenTree")]
  }

  /** `json.dumps(d, sort_keys=True)` as its key/value pairs, in key order:
      each key once, with its value. */
  function SortedItems(d: map<string, JsonValue>): (r: seq<(string, JsonValue)>)
    ensures |r| == |d.Keys|
    ensures forall i, j :: 0 <= i < j < |r| ==> LexLessEq(r[i].0, r[j].0) && r[i].0 != r[j].0
    ensures forall i :: 0 <= i < |r| ==> r[i].0 in d && r[i].1 == d[r[i].0]
  {
    var keys := SortedStrings(d.Keys);
    SortedStringsFacts(d.Keys);
    seq(|keys|, i requires 0 <= i < |keys| => (keys[i], d[keys[i]]))
  }

  /** Every key of the dict is emitted. */
  lemma SortedItemsComplete(d: map<string, JsonValue>, k: string)
    requires k in d
    ensures exists i :: 0 <= i < |SortedItems(d)| && SortedItems(d)[i].0 == k
  {
    var keys := SortedStrings(d.Keys);
    SortedStringsFacts(d.Keys);
    var i :| 0 <= i < |keys| && keys[i] == k;
    assert SortedItems(d)[i].0 == k;
  }

  /** `MakeBarcode(object_type, object_id, object_url, data)`: writes the
      four keys into the caller's dict and returns it dumped with sorted
      keys. */
  method MakeBarcode(objectType: string, objectId: int, objectUrl: string, data: JsonObject)
    returns (r: seq<(string, JsonValue)>)
    modifies data
    ensures data.entries == WithBarcodeKeys(old(data.entries), objectType, objectId, objectUrl)
    ensures r == SortedItems(data.entries)
  {
    data.entries := data.entries["type" := JStr(objectType)];
    data.entries := data.entries["id" := JInt(objectId)];
    data.entries := data.entries["url" := JStr(objectUrl)];
    data.entries := data.entries["tool" := JStr("InvenTree")];
    r := SortedItems(data.entries);
  }

  /** A dict left over from an earlier call (the shared default `{}`) does
      not change the outcome: the four keys are overwritten every time. */
  lemma BarcodeKeysOverwrite(data: map<string, JsonValue>, t1: string, i1: int, u1: string,
                             t2: string, i2: int, u2: string)
    ensures WithBarcodeKeys(WithBarcodeKeys(data, t1, i1, u1), t2, i2, u2) == WithBarcodeKeys(data, t2, i2, u2)
  {
  }

  /** The example the tests use: the caller's keys survive next to the
      tool key. */
  lemma BarcodeExample()
    ensures var d := WithBarcodeKeys(map["animal" := JStr("cat"), "legs" := JInt(3), "noise" := JStr("purr")],
                                     "part", 3, "www.google.com");
      && d["animal"] == JStr("cat") && d["tool"] == JStr("InvenTree") && |d.Keys| == 7
  {
    var d := WithBarcodeKeys(map["animal" := JStr("cat"), "legs" := JInt(3), "noise" := JStr("purr")],
                             "part", 3, "www.google.com");
    assert d.Keys == {"animal", "legs", "noise", "type", "id", "url", "tool"};
  }
}
