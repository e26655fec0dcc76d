/**
 * `ImageMetadata`'s mapping from EXIF tag names to its columns: the regex
 * `(?<!^)(?=[A-Z])` puts `_` before every ASCII capital that does not start
 * the name, `.lower()` then lowercases, and only whitelisted tags reach
 * `setattr`.
 */
module ImageMeta {
  import opened Opt

  predicate IsUpper(c: char) {
    'A' <= c <= 'Z'
  }

  /** `str.lower` on one character, for the ASCII capitals a tag name holds. */
  function Lower(c: char): char {
    if IsUpper(c) then (c as int + 32) as char else c
  }

  /** The capital a lowercase ASCII letter stands for; anything else unchanged. */
  function Upper(c: char): char {
    if 'a' <= c <= 'z' then (c as int - 32) as char else c
  }

  /** Lowering a capital gives a lowercase letter that capitalises back to it; nothing else changes. */
  lemma {:induction false} LowerUpper(c: char)
    ensures IsUpper(c) ==> Upper(Lower(c)) == c && 'a' <= Lower(c) <= 'z'
    ensures !IsUpper(c) ==> Lower(c) == c
  {
  }

  /** `name_conversion_regex.sub("_", tag)`: the first character as it is, then `_` before each capital. */
  function Underscored(tag: string): string {
    if tag == [] then [] else [tag[0]] + Marked(tag[1..])
  }

  /** The characters after the first: each capital gets a `_` in front. */
  function Marked(s: string): string {
    if s == [] then [] else (if IsUpper(s[0]) then ['_', s[0]] else [s[0]]) + Marked(s[1..])
  }

  /** `.lower()`. */
  function LowerAll(s: string): (r: string)
    ensures |r| == |s|
  {
    if s == [] then [] else [Lower(s[0])] + LowerAll(s[1..])
  }

  /** The attribute name a tag is stored under. */
  function PropName(tag: string): string {
    LowerAll(Underscored(tag))
  }

  /** The inverse mapping: capitalise the first letter and every letter after `_`, dropping the `_`. */
  function CamelCase(s: string): string {
    if s == [] then [] else [Upper(s[0])] + Restore(s[1..])
  }

  function Restore(s: string): string {
    if s == [] then []
    else if s[0] == '_' && |s| > 1 then [Upper(s[1])] + Restore(s[2..])
    else [s[0]] + Restore(s[1..])
  }

  lemma {:induction false} LowerAllConcat(a: string, b: string)
    ensures LowerAll(a + b) == LowerAll(a) + LowerAll(b)
  {
    if a == [] {
      assert a + b == b;
    } else {
      assert (a + b)[0] == a[0] && (a + b)[1..] == a[1..] + b;
      LowerAllConcat(a[1..], b);
    }
  }

  lemma {:induction false} MarkedConcat(a: string, b: string)
    ensures Marked(a + b) == Marked(a) + Marked(b)
  {
    if a == [] {
      assert a + b == b;
    } else {
      assert (a + b)[0] == a[0] && (a + b)[1..] == a[1..] + b;
      MarkedConcat(a[1..], b);
    }
  }

  /** No ASCII capital in `s`. */
  predicate NoCapital(s: string) {
    forall i :: 0 <= i < |s| ==> !IsUpper(s[i])
  }

  /** Text without capitals passes both steps unchanged. */
  lemma {:induction false} NoCapitals(s: string)
    requires NoCapital(s)
    ensures Marked(s) == s && LowerAll(s) == s
  {
    if s != [] {
      LowerUpper(s[0]);
      assert forall i :: 0 <= i < |s| - 1 ==> s[1..][i] == s[i + 1];
      NoCapitals(s[1..]);
    }
  }

  lemma {:induction false} RestoreMarked(s: string)
    requires '_' !in s
    ensures Restore(LowerAll(Marked(s))) == s
  {
    if s != [] {
      var c := s[0];
      var t := s[1..];
      assert c in s;
      assert forall x :: x in t ==> x in s;
      RestoreMarked(t);
      var rest := LowerAll(Marked(t));
      var piece := if IsUpper(c) then ['_', c] else [c];
      assert Marked(s) == piece + Marked(t);
      LowerAllConcat(piece, Marked(t));
      var l := LowerAll(Marked(s));
      LowerUpper(c);
      if IsUpper(c) {
        assert l == ['_', Lower(c)] + rest;
        assert l[2..] == rest;
        assert Restore(l) == [Upper(Lower(c))] + Restore(rest);
      } else {
        assert l == [c] + rest;
        assert l[1..] == rest;
        assert Restore(l) == [c] + Restore(rest);
      }
      assert s == [c] + t;
    }
  }

  /** A tag in EXIF's own spelling: a leading capital and no `_`. */
  predicate CamelTag(tag: string) {
    |tag| > 0 && IsUpper(tag[0]) && forall i :: 0 <= i < |tag| ==> tag[i] != '_'
  }

  /**
   * The conversion loses nothing for a tag in EXIF's spelling: capitalising
   * after each `_` gives the tag back.
   */
  lemma {:induction false} RoundTrip(tag: string)
    requires CamelTag(tag)
    ensures CamelCase(PropName(tag)) == tag
  {
    var c := tag[0];
    var t := tag[1..];
    assert '_' !in tag;
    assert forall x :: x in t ==> x in tag;
    LowerAllConcat([c], Marked(t));
    RestoreMarked(t);
    var s := PropName(tag);
    LowerUpper(c);
    assert s == [Lower(c)] + LowerAll(Marked(t));
    assert s[1..] == LowerAll(Marked(t));
    assert tag == [c] + t;
  }

  /** Two tags in EXIF's spelling never share an attribute name. */
  lemma {:induction false} PropNameInjective(a: string, b: string)
    requires CamelTag(a) && CamelTag(b)
    requires PropName(a) == PropName(b)
    ensures a == b
  {
    RoundTrip(a);
    RoundTrip(b);
  }

  /** One capitalised word after the first gets a `_` in front ... */
  lemma {:induction false} CapitalMarked(c: char, w: string)
    requires IsUpper(c) && NoCapital(w)
    ensures Marked([c] + w) == ['_', c] + w
  {
    var s := [c] + w;
    assert s[0] == c && s[1..] == w;
    assert Marked(s) == ['_', c] + Marked(w);
    NoCapitals(w);
  }

  /** ... and only its capital is lowered. */
  lemma {:induction false} CapitalLowered(c: char, w: string)
    requires NoCapital(w)
    ensures LowerAll(['_', c] + w) == ['_', Lower(c)] + w
  {
    var s := ['_', c] + w;
    assert s[0] == '_' && s[1..] == [c] + w;
    assert ([c] + w)[0] == c && ([c] + w)[1..] == w;
    assert LowerAll(s) == [Lower('_')] + LowerAll([c] + w);
    assert LowerAll([c] + w) == [Lower(c)] + LowerAll(w);
    NoCapitals(w);
  }

  /** The first word is kept as it is, then lowered. */
  lemma {:induction false} FirstWord(c: char, w: string, rest: string)
    requires NoCapital(w)
    ensures PropName([c] + w + rest) == [Lower(c)] + w + LowerAll(Marked(rest))
  {
    var x := [c] + w + rest;
    assert x[0] == c && x[1..] == w + rest;
    assert Underscored(x) == [c] + (w + Marked(rest)) by {
      NoCapitals(w);
      MarkedConcat(w, rest);
    }
    assert LowerAll([c] + (w + Marked(rest))) == [Lower(c)] + (w + LowerAll(Marked(rest))) by {
      var y := [c] + (w + Marked(rest));
      assert y[0] == c && y[1..] == w + Marked(rest);
      NoCapitals(w);
      LowerAllConcat(w, Marked(rest));
    }
  }

  /** A capitalised word in front of more text becomes `_`, its lowered capital, then the word. */
  lemma {:induction false} NextWord(c: char, w: string, rest: string)
    requires IsUpper(c) && NoCapital(w)
    ensures LowerAll(Marked([c] + w + rest)) == ['_', Lower(c)] + w + LowerAll(Marked(rest))
  {
    assert LowerAll(Marked([c] + w + rest)) == LowerAll(['_', c] + w) + LowerAll(Marked(rest)) by {
      MarkedConcat([c] + w, rest);
      CapitalMarked(c, w);
      LowerAllConcat(['_', c] + w, Marked(rest));
    }
    CapitalLowered(c, w);
  }

  /** Lowercase ASCII letters only: the rest of a word in a tag name. */
  predicate LowerWord(w: string) {
    forall i :: 0 <= i < |w| ==> 'a' <= w[i] <= 'z'
  }

  /** A capital, then a lowercase word, then text without `_` has no `_`. */
  lemma {:induction false} NoUnderscore(c: char, w: string, rest: string)
    requires IsUpper(c) && LowerWord(w)
    requires forall i :: 0 <= i < |rest| ==> rest[i] != '_'
    ensures forall i :: 0 <= i < |[c] + w + rest| ==> ([c] + w + rest)[i] != '_'
  {
  }

  /** A tag of one word: only its capital is lowered. */
  lemma {:induction false} OneWord(tag: string, column: string, c: char, w: string)
    requires IsUpper(c) && LowerWord(w)
    requires tag == [c] + w && column == [Lower(c)] + w
    ensures PropName(tag) == column && CamelTag(tag)
  {
    assert tag == [c] + w + [];
    FirstWord(c, w, []);
    NoUnderscore(c, w, []);
  }

  /** A tag of two words: `_` between them, both lowered. */
  lemma {:induction false} TwoWords(tag: string, column: string, c1: char, w1: string, c2: char, w2: string)
    requires IsUpper(c1) && LowerWord(w1) && IsUpper(c2) && LowerWord(w2)
    requires tag == [c1] + w1 + ([c2] + w2) && column == [Lower(c1)] + w1 + (['_', Lower(c2)] + w2)
    ensures PropName(tag) == column && CamelTag(tag)
  {
    FirstWord(c1, w1, [c2] + w2);
    CapitalMarked(c2, w2);
    CapitalLowered(c2, w2);
    NoUnderscore(c2, w2, []);
    assert [c2] + w2 + [] == [c2] + w2;
    NoUnderscore(c1, w1, [c2] + w2);
  }

  /** A tag of three words. */
  lemma {:induction false} ThreeWords(tag: string, column: string, c1: char, w1: string, c2: char, w2: string,
                                      c3: char, w3: string)
    requires IsUpper(c1) && LowerWord(w1) && IsUpper(c2) && LowerWord(w2) && IsUpper(c3) && LowerWord(w3)
    requires tag == [c1] + w1 + ([c2] + w2 + ([c3] + w3))
    requires column == [Lower(c1)] + w1 + (['_', Lower(c2)] + w2 + (['_', Lower(c3)] + w3))
    ensures PropName(tag) == column && CamelTag(tag)
  {
    var third := [c3] + w3;
    FirstWord(c1, w1, [c2] + w2 + third);
    NextWord(c2, w2, third);
    assert LowerAll(Marked(third)) == ['_', Lower(c3)] + w3 by {
      CapitalMarked(c3, w3);
      CapitalLowered(c3, w3);
    }
    NoUnderscore(c3, w3, []);
    assert third + [] == third;
    NoUnderscore(c2, w2, third);
    NoUnderscore(c1, w1, [c2] + w2 + third);
  }

  /** Tags copied as they come. */
  const DirectTags: seq<string> := ["Make", "Model", "Software", "Orientation", "XResolution", "YResolution",
                                    "ShutterSpeedValue", "ApertureValue", "BrightnessValue", "ExposureBiasValue"]

  /** Tags parsed with `strptime(v, "%Y:%m:%d %H:%M:%S")`. */
  const DateTags: seq<string> := ["DateTime", "DateTimeOriginal"]

  /** The columns of `image_meta` besides `id` and `file_id`. */
  const Columns: set<string> := {
    "make", "model", "software", "orientation", "date_time", "x_resolution", "y_resolution",
    "date_time_original", "shutter_speed_value", "aperture_value", "brightness_value",
    "exposure_bias_value", "gps_latitude_dms", "gps_longitude_dms", "gps_altitude_m",
    "gps_datetime", "gps_direction"}

  lemma {:induction false} MakeColumn(tag: string)
    requires tag == "Make"
    ensures PropName(tag) == "make" && PropName(tag) in Columns && CamelTag(tag)
  {
    OneWord(tag, "make", 'M', "ake");
  }

  lemma {:induction false} ModelColumn(tag: string)
    requires tag == "Model"
    ensures PropName(tag) == "model" && PropName(tag) in Columns && CamelTag(tag)
  {
    OneWord(tag, "model", 'M', "odel");
  }

  lemma {:induction false} SoftwareColumn(tag: string)
    requires tag == "Software"
    ensures PropName(tag) == "software" && PropName(tag) in Columns && CamelTag(tag)
  {
    OneWord(tag, "software", 'S', "oftware");
  }

  lemma {:induction false} OrientationColumn(tag: string)
    requires tag == "Orientation"
    ensures PropName(tag) == "orientation" && PropName(tag) in Columns && CamelTag(tag)
  {
    OneWord(tag, "orientation", 'O', "rientation");
  }

  lemma {:induction false} XResolutionColumn(tag: string)
    requires tag == "XResolution"
    ensures PropName(tag) == "x_resolution" && PropName(tag) in Columns && CamelTag(tag)
  {
    TwoWords(tag, "x_resolution", 'X', "", 'R', "esolution");
  }

  lemma {:induction false} YResolutionColumn(tag: string)
    requires tag == "YResolution"
    ensures PropName(tag) == "y_resolution" && PropName(tag) in Columns && CamelTag(tag)
  {
    TwoWords(tag, "y_resolution", 'Y', "", 'R', "esolution");
  }

  lemma {:induction false} ShutterSpeedValueColumn(tag: string)
    requires tag == "ShutterSpeedValue"
    ensures PropName(tag) == "shutter_speed_value" && PropName(tag) in Columns && CamelTag(tag)
  {
    ThreeWords(tag, "shutter_speed_value", 'S', "hutter", 'S', "peed", 'V', "alue");
  }

  lemma {:induction false} ApertureValueColumn(tag: string)
    requires tag == "ApertureValue"
    ensures PropName(tag) == "aperture_value" && PropName(tag) in Columns && CamelTag(tag)
  {
    TwoWords(tag, "aperture_value", 'A', "perture", 'V', "alue");
  }

  lemma {:induction false} BrightnessValueColumn(tag: string)
    requires tag == "BrightnessValue"
    ensures PropName(tag) == "brightness_value" && PropName(tag) in Columns && CamelTag(tag)
  {
    TwoWords(tag, "brightness_value", 'B', "rightness", 'V', "alue");
  }

  lemma {:induction false} ExposureBiasValueColumn(tag: string)
    requires tag == "ExposureBiasValue"
    ensures PropName(tag) == "exposure_bias_value" && PropName(tag) in Columns && CamelTag(tag)
  {
    ThreeWords(tag, "exposure_bias_value", 'E', "xposure", 'B', "ias", 'V', "alue");
  }

  lemma {:induction false} DateTimeColumn(tag: string)
    requires tag == "DateTime"
    ensures PropName(tag) == "date_time" && PropName(tag) in Columns && CamelTag(tag)
  {
    TwoWords(tag, "date_time", 'D', "ate", 'T', "ime");
  }

  lemma {:induction false} DateTimeOriginalColumn(tag: string)
    requires tag == "DateTimeOriginal"
    ensures PropName(tag) == "date_time_original" && PropName(tag) in Columns && CamelTag(tag)
  {
    ThreeWords(tag, "date_time_original", 'D', "ate", 'T', "ime", 'O', "riginal");
  }

  /** The two lists `populate_from_file` tests a tag name against, in that order. */
  datatype Whitelist = Whitelist(direct: seq<string>, dates: seq<string>)

  /** The lists as the source spells them. */
  const Source: Whitelist := Whitelist(DirectTags, DateTags)

  /** `tagname in [...]` for either list. */
  predicate Listed(w: Whitelist, tag: string) {
    tag in w.direct || tag in w.dates
  }

  /** Every whitelisted tag is in EXIF's spelling and is written to a column of `image_meta`. */
  lemma {:induction false} WhitelistColumns(tag: string)
    requires Listed(Source, tag)
    ensures PropName(tag) in Columns && CamelTag(tag)
  {
    assert tag in DirectTags || tag in DateTags;
    if tag == "Make" { MakeColumn(tag); }
    else if tag == "Model" { ModelColumn(tag); }
    else if tag == "Software" { SoftwareColumn(tag); }
    else if tag == "Orientation" { OrientationColumn(tag); }
    else if tag == "XResolution" { XResolutionColumn(tag); }
    else if tag == "YResolution" { YResolutionColumn(tag); }
    else if tag == "ShutterSpeedValue" { ShutterSpeedValueColumn(tag); }
    else if tag == "ApertureValue" { ApertureValueColumn(tag); }
    else if tag == "BrightnessValue" { BrightnessValueColumn(tag); }
    else if tag == "ExposureBiasValue" { ExposureBiasValueColumn(tag); }
    else if tag == "DateTime" { DateTimeColumn(tag); }
    else { DateTimeOriginalColumn(tag); }
  }

  /** Distinct whitelisted tags are written to distinct attributes. */
  lemma {:induction false} WhitelistInjective(a: string, b: string)
    requires Listed(Source, a) && Listed(Source, b) && a != b
    ensures PropName(a) != PropName(b)
  {
    WhitelistColumns(a);
    WhitelistColumns(b);
    if PropName(a) == PropName(b) {
      PropNameInjective(a, b);
    }
  }

  /** Every tag on the lists is in EXIF's spelling. */
  ghost predicate Spelled(w: Whitelist) {
    forall tag :: Listed(w, tag) ==> CamelTag(tag)
  }

  /** Every tag on the lists names a column of `image_meta`. */
  ghost predicate IntoColumns(w: Whitelist) {
    forall tag :: Listed(w, tag) ==> PropName(tag) in Columns
  }

  /** The source's lists have both properties. */
  lemma {:induction false} SourceWhitelist()
    ensures Spelled(Source) && IntoColumns(Source)
  {
    forall tag | Listed(Source, tag)
      ensures CamelTag(tag) && PropName(tag) in Columns
    {
      WhitelistColumns(tag);
    }
  }

  /** What `setattr` stores: the EXIF value as it came, or the datetime `strptime` parses from it. */
  datatype Cell<V> = Copied(value: V) | Parsed(text: V)

  /** The cell a whitelisted `(tagname, v)` item stores. */
  function CellOf<V>(w: Whitelist, item: (string, V)): Cell<V> {
    if item.0 in w.direct then Copied(item.1) else Parsed(item.1)
  }

  /** The attributes after one `(tagname, v)` item of the loop. */
  function Apply<V>(w: Whitelist, attrs: map<string, Cell<V>>, item: (string, V)): map<string, Cell<V>> {
    if item.0 in w.direct then attrs[PropName(item.0) := Copied(item.1)]
    else if item.0 in w.dates then attrs[PropName(item.0) := Parsed(item.1)]
    else attrs
  }

  /** One item sets its tag's attribute to its cell when the tag is listed, and nothing otherwise. */
  lemma {:induction false} ApplySets<V>(w: Whitelist, attrs: map<string, Cell<V>>, item: (string, V))
    ensures Listed(w, item.0) ==> Apply(w, attrs, item) == attrs[PropName(item.0) := CellOf(w, item)]
    ensures !Listed(w, item.0) ==> Apply(w, attrs, item) == attrs
  {
  }

  /** The three branches of one item. */
  lemma {:induction false} ApplyCases<V>(w: Whitelist, attrs: map<string, Cell<V>>, tag: string, v: V)
    ensures tag in w.direct ==> Apply(w, attrs, (tag, v)) == attrs[PropName(tag) := Copied(v)]
    ensures tag !in w.direct && tag in w.dates ==> Apply(w, attrs, (tag, v)) == attrs[PropName(tag) := Parsed(v)]
    ensures tag !in w.direct && tag !in w.dates ==> Apply(w, attrs, (tag, v)) == attrs
  {
  }

  /** The attributes after the items, in `exif.items()` order. */
  function Populated<V>(w: Whitelist, attrs: map<string, Cell<V>>, items: seq<(string, V)>): map<string, Cell<V>> {
    if items == [] then attrs else Apply(w, Populated(w, attrs, items[..|items| - 1]), items[|items| - 1])
  }

  /** The items up to `i + 1` are those up to `i`, then item `i`. */
  lemma {:induction false} PopulatedStep<V>(w: Whitelist, attrs: map<string, Cell<V>>, items: seq<(string, V)>, i: nat)
    requires i < |items|
    ensures Populated(w, attrs, items[..i + 1]) == Apply(w, Populated(w, attrs, items[..i]), items[i])
  {
    assert items[..i + 1][..i] == items[..i];
  }

  /** Population only ever sets columns of `image_meta`. */
  lemma {:induction false} PopulatedKeys<V>(w: Whitelist, attrs: map<string, Cell<V>>, items: seq<(string, V)>)
    requires IntoColumns(w)
    ensures Populated(w, attrs, items).Keys <= attrs.Keys + Columns
  {
    if items != [] {
      var init := items[..|items| - 1];
      PopulatedKeys(w, attrs, init);
      ApplySets(w, Populated(w, attrs, init), items[|items| - 1]);
    }
  }

  /** A listed tag's attribute holds the value of its last occurrence. */
  lemma {:induction false} PopulatedLastWins<V>(w: Whitelist, attrs: map<string, Cell<V>>, items: seq<(string, V)>, i: nat)
    requires Spelled(w)
    requires i < |items| && Listed(w, items[i].0)
    requires forall j :: i < j < |items| ==> items[j].0 != items[i].0
    ensures PropName(items[i].0) in Populated(w, attrs, items)
    ensures Populated(w, attrs, items)[PropName(items[i].0)] == CellOf(w, items[i])
  {
    var init := items[..|items| - 1];
    var last := items[|items| - 1];
    ApplySets(w, Populated(w, attrs, init), last);
    if i < |items| - 1 {
      assert init[i] == items[i];
      assert forall j :: i < j < |init| ==> init[j] == items[j];
      PopulatedLastWins(w, attrs, init, i);
      if Listed(w, last.0) && PropName(last.0) == PropName(items[i].0) {
        PropNameInjective(last.0, items[i].0);
      }
    }
  }

  /** An attribute no listed item names keeps what it held, or stays unset. */
  lemma {:induction false} PopulatedUntouched<V>(w: Whitelist, attrs: map<string, Cell<V>>, items: seq<(string, V)>,
                                                 name: string)
    requires forall j :: 0 <= j < |items| && Listed(w, items[j].0) ==> PropName(items[j].0) != name
    ensures name in Populated(w, attrs, items) <==> name in attrs
    ensures name in attrs ==> Populated(w, attrs, items)[name] == attrs[name]
  {
    if items != [] {
      var init := items[..|items| - 1];
      assert forall j :: 0 <= j < |init| ==> init[j] == items[j];
      PopulatedUntouched(w, attrs, init, name);
      ApplySets(w, Populated(w, attrs, init), items[|items| - 1]);
    }
  }

  /** An `image_meta` row: the attributes `setattr` has set so far, by name. */
  class ImageMetadata<V> {
    var attrs: map<string, Cell<V>>

    constructor()
      ensures attrs == map[]
    {
      attrs := map[];
    }

    /**
     * `populate_from_file` after PIL has read the file: `exif` is what
     * `_getexif()` returned, its items already named by `ExifTags.TAGS`.
     */
    method PopulateFromFile(exif: Option<seq<(string, V)>>)
      modifies this
      ensures exif.None? ==> attrs == old(attrs)
      ensures exif.Some? ==> attrs == Populated(Source, old(attrs), exif.value)
    {
      if exif.None? {
        return;
      }
      var items := exif.value;
      ghost var start := attrs;
      var i := 0;
      while i < |items|
        invariant 0 <= i <= |items|
        invariant attrs == Populated(Source, start, items[..i])
      {
        var (tag, v) := items[i];
        PopulatedStep(Source, start, items, i);
        ApplyCases(Source, attrs, tag, v);
        if tag in DirectTags {
          attrs := attrs[PropName(tag) := Copied(v)];
        } else if tag in DateTags {
          attrs := attrs[PropName(tag) := Parsed(v)];
        }
        i := i + 1;
      }
      assert items[..i] == items;
    }
  }
}
