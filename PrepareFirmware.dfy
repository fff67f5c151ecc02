/** The text and list logic of the firmware-preparation wizard (main.py):
    the version taken from a download URL, the file names it derives, the
    two edits it makes to text files of the firmware image, the choice of
    the image file inside the archive, and the question-by-question wizard.
    Keyboard input is a scripted sequence of answers; downloading, zipping,
    mounting and the shell commands stand outside the model. */
module PrepareFirmware {
  import opened Wrappers
  import opened Text

  // ---------------------------------------------------------------- str.split

  /** `s.split(sep)` for a non-empty separator. */
  function Split(s: string, sep: string): (r: seq<string>)
    requires |sep| > 0
    ensures |r| >= 1
    ensures |r| >= 2 <==> Contains(s, sep)
    ensures |r| == 1 ==> r[0] == s
    decreases |s|
  {
    var i := Find(s, sep);
    if i < 0 then [s] else [s[..i]] + Split(s[i + |sep|..], sep)
  }

  /** `sep.join(parts)`. */
  function Join(parts: seq<string>, sep: string): string
    requires |parts| >= 1
    decreases |parts|
  {
    if |parts| == 1 then parts[0] else parts[0] + sep + Join(parts[1..], sep)
  }

  /** A text containing `sep` splits into the part before its first
      occurrence and the fields of the rest. */
  lemma {:induction false} SplitFirst(s: string, sep: string)
    requires |sep| > 0 && Contains(s, sep)
    ensures var i := Find(s, sep);
      i + |sep| <= |s| && s == s[..i] + sep + s[i + |sep|..] &&
      Split(s, sep) == [s[..i]] + Split(s[i + |sep|..], sep)
  {
    Recompose(s, Find(s, sep), sep);
  }

  lemma {:induction false} JoinCons(a: string, rest: seq<string>, sep: string)
    requires |rest| >= 1
    ensures Join([a] + rest, sep) == a + sep + Join(rest, sep)
  {
    assert ([a] + rest)[1..] == rest;
  }

  /** A text is what comes before an occurrence, the occurrence and what follows. */
  lemma {:induction false} Recompose<T>(s: seq<T>, i: nat, pat: seq<T>)
    requires i + |pat| <= |s| && s[i..i + |pat|] == pat
    ensures s == s[..i] + pat + s[i + |pat|..]
  {
    assert s == s[..i] + s[i..i + |pat|] + s[i + |pat|..];
  }

  /** Joining the fields again gives back the text ... */
  lemma {:induction false} SplitJoin(s: string, sep: string)
    requires |sep| > 0
    ensures Join(Split(s, sep), sep) == s
    decreases |s|
  {
    if Contains(s, sep) {
      var i := Find(s, sep);
      SplitFirst(s, sep);
      var t := s[i + |sep|..];
      SplitJoin(t, sep);
      JoinCons(s[..i], Split(t, sep), sep);
    }
  }

  lemma {:induction false} OccursInPrefix(s: string, pat: string, i: nat, j: int)
    requires i <= |s| && OccursAt(s[..i], pat, j)
    ensures OccursAt(s, pat, j)
  {
    assert s[..i][j..j + |pat|] == s[j..j + |pat|];
  }

  /** ... and no field contains the separator. */
  lemma {:induction false} SplitFieldsFree(s: string, sep: string)
    requires |sep| > 0
    ensures forall k :: 0 <= k < |Split(s, sep)| ==> !Contains(Split(s, sep)[k], sep)
    decreases |s|
  {
    var i := Find(s, sep);
    if i >= 0 {
      var t := s[i + |sep|..];
      SplitFieldsFree(t, sep);
      var r := Split(s, sep);
      assert r[1..] == Split(t, sep);
      if Contains(s[..i], sep) {
        OccursInPrefix(s, sep, i, Find(s[..i], sep));
      }
      forall k | 1 <= k < |r| ensures !Contains(r[k], sep) {
        assert r[k] == Split(t, sep)[k - 1];
      }
    }
  }

  /** A first occurrence of `sep` at the end of `a` splits off `a`. */
  lemma {:induction false} SplitAt(a: string, sep: string, b: string)
    requires |sep| > 0 && Find(a + sep + b, sep) == |a|
    ensures Split(a + sep + b, sep) == [a] + Split(b, sep)
  {
    var s := a + sep + b;
    assert s[..|a|] == a;
    assert s[|a| + |sep|..] == b;
  }

  /** `pat` occurs at `i` and, before it, the text never shows `pat`'s
      `k`-th character where that character would have to be: `i` is the
      first occurrence. */
  lemma {:induction false} FindByKey(s: string, pat: string, i: nat, k: nat)
    requires k < |pat| && OccursAt(s, pat, i)
    requires forall j :: k <= j < i + k ==> s[j] != pat[k]
    ensures Find(s, pat) == i
  {
    forall r | 0 <= r < i ensures !OccursAt(s, pat, r) {
      if r + |pat| <= |s| {
        assert s[r..r + |pat|][k] == s[r + k];
      }
    }
  }

  /** A text that never shows one character of `pat` does not contain `pat`. */
  lemma {:induction false} AbsentByKey(s: string, pat: string, k: nat)
    requires k < |pat|
    requires forall j :: 0 <= j < |s| ==> s[j] != pat[k]
    ensures !Contains(s, pat)
  {
    forall r | 0 <= r <= |s| ensures !OccursAt(s, pat, r) {
      if r + |pat| <= |s| {
        assert s[r..r + |pat|][k] == s[r + k];
      }
    }
  }

  // ---------------------------------------------------------------- lower-case text

  /** No character of `s` lowers to `c`. */
  predicate Avoids(s: string, c: char)
  {
    forall j :: 0 <= j < |s| ==> LowerChar(s[j]) != c
  }

  lemma {:induction false} AvoidsConcat(a: string, b: string, c: char)
    requires Avoids(a, c) && Avoids(b, c)
    ensures Avoids(a + b, c)
  {
    forall j | 0 <= j < |a + b| ensures LowerChar((a + b)[j]) != c {
      if j >= |a| {
        assert (a + b)[j] == b[j - |a|];
      }
    }
  }

  lemma {:induction false} LowerConcat(a: string, b: string)
    ensures Lower(a + b) == Lower(a) + Lower(b)
    decreases |a|
  {
    if a == [] {
      assert a + b == b;
    } else {
      assert (a + b)[1..] == a[1..] + b;
      LowerConcat(a[1..], b);
    }
  }

  /** Lower-casing a text that matches `m` character by character gives `m`. */
  lemma {:induction false} LowerMatches(s: string, m: string)
    requires |s| == |m| && forall j :: 0 <= j < |s| ==> LowerChar(s[j]) == m[j]
    ensures Lower(s) == m
  {
  }

  /** Where the model's tag first shows up in the lower-cased URL: after a
      head that does not show the tag's `k`-th character before it, the URL
      splits into the lowered head and the lowered rest, as long as the rest
      lacks the tag's `k2`-th character. */
  lemma {:induction false} TagSplit(head: string, tag: string, rest: string, m: string, k: nat, k2: nat)
    requires |tag| == |m| > 0 && forall j :: 0 <= j < |m| ==> LowerChar(tag[j]) == m[j]
    requires k < |m| && Avoids(head, m[k]) && forall j :: 0 <= j < k ==> m[j] != m[k]
    requires k2 < |m| && Avoids(rest, m[k2])
    ensures Split(Lower(head + tag + rest), m) == [Lower(head), Lower(rest)]
  {
    LowerConcat(head + tag, rest);
    LowerConcat(head, tag);
    LowerMatches(tag, m);
    TagFirst(Lower(head), m, Lower(rest), k);
    SplitAt(Lower(head), m, Lower(rest));
    AbsentByKey(Lower(rest), m, k2);
  }

  /** The first occurrence of `m` in `h + m + r`, where `h` never shows `m`'s
      `k`-th character and that character does not show earlier in `m`. */
  lemma {:induction false} TagFirst(h: string, m: string, r: string, k: nat)
    requires k < |m| && forall j :: 0 <= j < k ==> m[j] != m[k]
    requires forall j :: 0 <= j < |h| ==> h[j] != m[k]
    ensures Find(h + m + r, m) == |h|
  {
    var l := h + m + r;
    assert OccursAt(l, m, |h|) by {
      assert l[|h|..|h| + |m|] == m;
    }
    forall j | k <= j < |h| + k ensures l[j] != m[k] {
      if j >= |h| {
        assert l[j] == m[j - |h|];
      }
    }
    FindByKey(l, m, |h|, k);
  }

  /** The first '_'-field of `d + x`, lowered, where `d` has no '_' and `x`
      is empty or starts a new field. */
  lemma {:induction false} FirstField(d: string, x: string)
    requires Avoids(d, '_') && (x == [] || x[0] == '_')
    ensures Split(Lower(d) + Lower(x), "_")[0] == Lower(d)
  {
    var w := Lower(d) + Lower(x);
    if x == [] {
      assert w == Lower(d);
      AbsentByKey(Lower(d), "_", 0);
    } else {
      assert OccursAt(w, "_", |d|) by {
        assert w[|d|..|d| + 1] == [Lower(x)[0]];
      }
      FindByKey(w, "_", |d|, 0);
      Recompose(w, |d|, "_");
      SplitAt(Lower(d), "_", w[|d| + 1..]);
    }
  }

  /** Lower-casing passes over a leading character that is its own lower case. */
  lemma {:induction false} LowerCons(c: char, s: string)
    requires LowerChar(c) == c
    ensures Lower([c] + s) == [c] + Lower(s)
  {
    assert ([c] + s)[1..] == s;
  }

  lemma {:induction false} LowerLead(c: char, d: string, x: string)
    requires LowerChar(c) == c
    ensures Lower([c] + d + x) == [] + [c] + (Lower(d) + Lower(x))
  {
    assert [c] + d + x == [c] + (d + x);
    LowerCons(c, d + x);
    LowerConcat(d, x);
    assert [] + [c] == [c];
  }

  /** The second '_'-field of `'_' + d + x`, lowered, is `d` lowered. */
  lemma {:induction false} FieldSplit(d: string, x: string)
    requires Avoids(d, '_') && (x == [] || x[0] == '_')
    ensures |Split(Lower("_" + d + x), "_")| >= 2
    ensures Split(Lower("_" + d + x), "_")[1] == Lower(d)
  {
    var w := Lower(d) + Lower(x);
    LowerLead('_', d, x);
    FindByKey([] + "_" + w, "_", 0, 0);
    SplitAt([], "_", w);
    FirstField(d, x);
  }

  // ---------------------------------------------------------------- getVersionFromURL

  /** `UnboundLocalError` (a model other than C300X or C100X leaves the
      local `model` unset) and `IndexError` (a missing field after split). */
  datatype VersionError = UnboundModel | IndexError

  /** The last known firmware URLs: the text before the model's name, the
      name, and the '_'-fields after it, the long runs cut into short ones. */
  const C300X_HEAD: string :=
    "https://prodlegrandres" + "sourcespkg.blob.core." + "windows.net/binarycon" + "tainer/bt_344642_3_0_0-"
  const VERSION_C300X: string := "010719"
  const C300X_TAIL: string := "_1_7_19.bin"
  const URL_C300X: string := C300X_HEAD + "c300x" + ("_" + VERSION_C300X + C300X_TAIL)
  const C100X_HEAD: string :=
    "https://www.homesystems-" + "legrandgroup.com/MatrixENG/" + "liferay/bt_mxLiferayChec" +
    "kout.jsp?fileFormat=generic&" + "fileName="
  const VERSION_C100X: string := "010501"
  const C100X_REST: string := ".fwz&fileId=" + "58107.23188.46381.34528"
  const URL_C100X: string := C100X_HEAD + "C100X" + ("_" + (VERSION_C100X + C100X_REST))

  /** The same versions in human form (1.7.19 and 1.5.1), field by field. */
  const HUMAN_C300X: string := "1" + "." + "7" + "." + "19"
  const HUMAN_C100X: string := "1" + "." + "5" + "." + "1"

  predicate IsModel(model: string) { model == "C300X" || model == "C100X" }

  /** The model's name as it is searched for in the lower-cased URL. */
  function ModelTag(model: string): (m: string)
    requires IsModel(model)
    ensures |m| == 5
  {
    if model == "C300X" then "c300x" else "c100x"
  }

  /** The human form: each two-digit field with its leading zeros stripped. */
  function HumanVersion(vtxt: string): (r: string)
    ensures 2 <= |r| <= 8
  {
    LStrip(PySlice(vtxt, 0, 2), '0') + "." + LStrip(PySlice(vtxt, 2, 4), '0') + "." +
    LStrip(PySlice(vtxt, 4, 6), '0')
  }

  /** A two-character field [a, b] with its leading zeros stripped. */
  function StripField(a: char, b: char): (r: string)
    ensures |r| <= 2
  {
    if a != '0' then [a, b] else if b != '0' then [b] else []
  }

  /** `f.lstrip('0')` of a two-character field drops a zero only while one leads. */
  lemma {:induction false} StripTwo(f: string)
    requires |f| == 2
    ensures LStrip(f, '0') == StripField(f[0], f[1])
  {
    if f[0] == '0' {
      assert f[1..][1..] == [];
    }
  }

  /** The field `vtxt[i:i+2]` of a text at least i + 2 long, stripped. */
  lemma {:induction false} StripFieldAt(v: string, i: nat)
    requires i + 2 <= |v|
    ensures LStrip(PySlice(v, i, i + 2), '0') == StripField(v[i], v[i + 1])
  {
    StripTwo(v[i..i + 2]);
  }

  lemma {:induction false} JoinDots(a: string, b: string, c: string, x: string, y: string, z: string)
    requires a == x && b == y && c == z
    ensures a + "." + b + "." + c == x + "." + y + "." + z
  {
  }

  /** The human form of a text of six or more characters, field by field. */
  lemma {:induction false} HumanFields(v: string)
    requires |v| >= 6
    ensures HumanVersion(v) ==
      StripField(v[0], v[1]) + "." + StripField(v[2], v[3]) + "." + StripField(v[4], v[5])
  {
    assert HumanVersion(v) ==
      LStrip(PySlice(v, 0, 2), '0') + "." + LStrip(PySlice(v, 2, 4), '0') + "." + LStrip(PySlice(v, 4, 6), '0');
    StripFieldAt(v, 0);
    StripFieldAt(v, 2);
    StripFieldAt(v, 4);
    JoinDots(LStrip(PySlice(v, 0, 2), '0'), LStrip(PySlice(v, 2, 4), '0'), LStrip(PySlice(v, 4, 6), '0'),
             StripField(v[0], v[1]), StripField(v[2], v[3]), StripField(v[4], v[5]));
  }

  /** The six-character slice and the human form of a field that starts with
      six digits see only those digits: lower-casing leaves them alone. */
  lemma {:induction false} DigitsLead(d: string, y: string)
    requires |d| == 6 && AllDigits(d)
    ensures PySlice(Lower(d + y), 0, 6) == d
    ensures HumanVersion(Lower(d + y)) == HumanVersion(d)
  {
    var v := Lower(d + y);
    assert forall i :: 0 <= i < 6 ==> v[i] == (d + y)[i] == d[i];
    assert v[0..6] == d;
    HumanFields(v);
    HumanFields(d);
  }

  /** getVersionFromURL: the second '_'-field after the model's name in the
      lower-cased URL, cut to six characters or put in human form. */
  function VersionFromUrl(url: string, model: string, human: bool): (r: Result<string, VersionError>)
    ensures r.Ok? ==> IsModel(model) && |r.value| <= (if human then 8 else 6)
  {
    var l := Lower(url);
    if !IsModel(model) then Err(UnboundModel)
    else
      var parts := Split(l, ModelTag(model));
      if |parts| < 2 then Err(IndexError)
      else
        var fields := Split(parts[1], "_");
        if |fields| < 2 then Err(IndexError)
        else if human then Ok(HumanVersion(fields[1]))
        else Ok(PySlice(fields[1], 0, 6))
  }

  /** getVersionFromURL fails exactly when the model is unknown, the URL lacks
      the model's name, or no '_' follows it before the name shows up again. */
  lemma {:induction false} VersionFromUrlErrors(url: string, model: string, human: bool)
    ensures VersionFromUrl(url, model, human) == Err(UnboundModel) <==> !IsModel(model)
    ensures VersionFromUrl(url, model, human) == Err(IndexError) <==>
      IsModel(model) &&
      (!Contains(Lower(url), ModelTag(model)) || !Contains(Split(Lower(url), ModelTag(model))[1], "_"))
  {
  }

  /** Every URL of the shape head + model + '_' + digits + ('_' ...) yields
      the digits, in either form. */
  lemma {:induction false} VersionOfShapedUrl(url: string, model: string, head: string, tag: string,
                                              d: string, x: string, k: nat, k2: nat)
    requires IsModel(model) && url == head + tag + ("_" + d + x)
    requires |tag| == 5 && forall j :: 0 <= j < 5 ==> LowerChar(tag[j]) == ModelTag(model)[j]
    requires k < 5 && Avoids(head, ModelTag(model)[k])
    requires forall j :: 0 <= j < k ==> ModelTag(model)[j] != ModelTag(model)[k]
    requires k2 < 5 && Avoids("_" + d + x, ModelTag(model)[k2])
    requires Avoids(d, '_') && (x == [] || x[0] == '_')
    ensures VersionFromUrl(url, model, false) == Ok(PySlice(Lower(d), 0, 6))
    ensures VersionFromUrl(url, model, true) == Ok(HumanVersion(Lower(d)))
  {
    TagSplit(head, tag, "_" + d + x, ModelTag(model), k, k2);
    FieldSplit(d, x);
  }

  lemma {:induction false} AvoidsConcat4(a: string, b: string, c: string, e: string, ch: char)
    requires Avoids(a, ch) && Avoids(b, ch) && Avoids(c, ch) && Avoids(e, ch)
    ensures Avoids(a + b + c + e, ch)
  {
    AvoidsConcat(a, b, ch);
    AvoidsConcat(a + b, c, ch);
    AvoidsConcat(a + b + c, e, ch);
  }

  lemma {:induction false} AvoidsC300XHost()
    ensures Avoids("https://prodlegrandres", 'x') && Avoids("sourcespkg.blob.core.", 'x')
  {
  }

  lemma {:induction false} AvoidsC300XPath()
    ensures Avoids("windows.net/binarycon", 'x') && Avoids("tainer/bt_344642_3_0_0-", 'x')
  {
  }

  lemma {:induction false} AvoidsC300XHead()
    ensures Avoids(C300X_HEAD, 'x')
  {
    AvoidsC300XHost();
    AvoidsC300XPath();
    AvoidsConcat4("https://prodlegrandres", "sourcespkg.blob.core.", "windows.net/binarycon",
                  "tainer/bt_344642_3_0_0-", 'x');
  }

  lemma {:induction false} AvoidsC300XFields()
    ensures Avoids("_" + VERSION_C300X + C300X_TAIL, 'x') && Avoids(VERSION_C300X, '_')
    ensures |VERSION_C300X| == 6 && AllDigits(VERSION_C300X)
  {
  }

  lemma {:induction false} HumanC300X()
    ensures HumanVersion(VERSION_C300X) == HUMAN_C300X
  {
    var v := VERSION_C300X;
    assert v[0] == '0' && v[1] == '1' && v[2] == '0' && v[3] == '7' && v[4] == '1' && v[5] == '9';
    HumanFields(v);
    JoinDots(StripField(v[0], v[1]), StripField(v[2], v[3]), StripField(v[4], v[5]), "1", "7", "19");
  }

  /** The built-in C300X URL carries firmware 010719, that is 1.7.19. */
  lemma {:induction false} VersionC300X()
    ensures VersionFromUrl(URL_C300X, "C300X", false) == Ok(VERSION_C300X)
    ensures VersionFromUrl(URL_C300X, "C300X", true) == Ok(HUMAN_C300X)
  {
    AvoidsC300XHead();
    AvoidsC300XFields();
    VersionOfShapedUrl(URL_C300X, "C300X", C300X_HEAD, "c300x", VERSION_C300X, C300X_TAIL, 4, 4);
    DigitsLead(VERSION_C300X, []);
    assert VERSION_C300X + [] == VERSION_C300X;
    HumanC300X();
  }

  lemma {:induction false} AvoidsC100XHead()
    ensures Avoids(C100X_HEAD, '1')
  {
    assert Avoids("https://www.homesystems-", '1');
    assert Avoids("legrandgroup.com/MatrixENG/", '1');
    assert Avoids("liferay/bt_mxLiferayChec", '1');
    assert Avoids("kout.jsp?fileFormat=generic&", '1');
    assert Avoids("fileName=", '1');
    AvoidsConcat4("https://www.homesystems-", "legrandgroup.com/MatrixENG/", "liferay/bt_mxLiferayChec",
                  "kout.jsp?fileFormat=generic&", '1');
    AvoidsConcat("https://www.homesystems-" + "legrandgroup.com/MatrixENG/" + "liferay/bt_mxLiferayChec" +
                 "kout.jsp?fileFormat=generic&", "fileName=", '1');
  }

  lemma {:induction false} Regroup(a: string, b: string, c: string)
    ensures a + (b + c) + [] == a + b + c
  {
  }

  lemma {:induction false} AvoidsC100XUnderscore()
    ensures Avoids(VERSION_C100X + C100X_REST, '_')
  {
    assert Avoids(VERSION_C100X, '_') && Avoids(".fwz&fileId=", '_') && Avoids("58107.23188.46381.34528", '_');
    AvoidsConcat(".fwz&fileId=", "58107.23188.46381.34528", '_');
    AvoidsConcat(VERSION_C100X, C100X_REST, '_');
  }

  lemma {:induction false} AvoidsC100XTag()
    ensures Avoids("_" + (VERSION_C100X + C100X_REST) + [], 'x')
  {
    assert Avoids("_" + VERSION_C100X, 'x') && Avoids(".fwz&fileId=", 'x') && Avoids("58107.23188.46381.34528", 'x');
    AvoidsConcat(".fwz&fileId=", "58107.23188.46381.34528", 'x');
    AvoidsConcat("_" + VERSION_C100X, C100X_REST, 'x');
    Regroup("_", VERSION_C100X, C100X_REST);
  }

  lemma {:induction false} HumanC100X()
    ensures HumanVersion(VERSION_C100X) == HUMAN_C100X
  {
    var v := VERSION_C100X;
    assert v[0] == '0' && v[1] == '1' && v[2] == '0' && v[3] == '5' && v[4] == '0' && v[5] == '1';
    HumanFields(v);
    JoinDots(StripField(v[0], v[1]), StripField(v[2], v[3]), StripField(v[4], v[5]), "1", "5", "1");
  }

  /** The built-in C100X URL carries firmware 010501, that is 1.5.1. */
  lemma {:induction false} VersionC100X()
    ensures VersionFromUrl(URL_C100X, "C100X", false) == Ok(VERSION_C100X)
    ensures VersionFromUrl(URL_C100X, "C100X", true) == Ok(HUMAN_C100X)
  {
    AvoidsC100XHead();
    AvoidsC100XUnderscore();
    AvoidsC100XTag();
    assert |VERSION_C100X| == 6 && AllDigits(VERSION_C100X);
    assert "_" + (VERSION_C100X + C100X_REST) + [] == "_" + (VERSION_C100X + C100X_REST);
    VersionOfShapedUrl(URL_C100X, "C100X", C100X_HEAD, "C100X", VERSION_C100X + C100X_REST, [], 1, 4);
    DigitsLead(VERSION_C100X, C100X_REST);
    HumanC100X();
  }

  /** Stripping leading zeros keeps a field's number, and only an all-zero
      field becomes empty. */
  lemma {:induction false} StripZerosValue(s: string)
    requires AllDigits(s)
    ensures AllDigits(LStrip(s, '0'))
    ensures DecimalValue(LStrip(s, '0')) == DecimalValue(s)
    ensures LStrip(s, '0') == [] <==> forall i :: 0 <= i < |s| ==> s[i] == '0'
    decreases |s|
  {
    if s != [] && s[0] == '0' {
      var t := s[1..];
      assert LStrip(s, '0') == LStrip(t, '0');
      StripZerosValue(t);
      LeadingZero(t);
      assert s == "0" + t;
      if forall i :: 0 <= i < |s| ==> s[i] == '0' {
        forall i | 0 <= i < |t| ensures t[i] == '0' {
          assert t[i] == s[i + 1];
        }
      }
      if forall i :: 0 <= i < |t| ==> t[i] == '0' {
        forall i | 0 <= i < |s| ensures s[i] == '0' {
          if i > 0 {
            assert s[i] == t[i - 1];
          }
        }
      }
    } else {
      assert LStrip(s, '0') == s;
    }
  }

  lemma {:induction false} LeadingZero(s: string)
    requires AllDigits(s)
    ensures AllDigits("0" + s) && DecimalValue("0" + s) == DecimalValue(s)
    decreases |s|
  {
    if s != [] {
      var t := "0" + s;
      assert t[..|t| - 1] == "0" + s[..|s| - 1];
      LeadingZero(s[..|s| - 1]);
    }
  }

  // ---------------------------------------------------------------- file names

  /** The file the wizard downloads: `f'{model}_{version}.fwz'`. */
  function FirmwareFileName(model: string, version: string): string
  {
    model + "_" + version + ".fwz"
  }

  /** The name of the rebuilt archive: `a[:-4] + '_new' + a[-4:]`. */
  function OutputName(a: string): (o: string)
    ensures |o| == |a| + 4
  {
    PySlice(a, 0, -4) + "_new" + PySlice(a, -4, |a|)
  }

  /** "_new" goes in front of the four-character extension, and taking it
      out again gives back the name; a name shorter than four characters
      just gets the prefix. */
  lemma {:induction false} OutputNameInverse(a: string)
    ensures var o := OutputName(a);
      && |o| == |a| + 4
      && (|a| >= 4 ==> o[|a| - 4..|a|] == "_new" && o[..|a| - 4] + o[|a|..] == a)
      && (|a| < 4 ==> o == "_new" + a)
  {
    var o := OutputName(a);
    if |a| >= 4 {
      assert o == a[..|a| - 4] + "_new" + a[|a| - 4..];
      assert o[..|a| - 4] == a[..|a| - 4];
      assert o[|a|..] == a[|a| - 4..];
    } else {
      assert PySlice(a, 0, -4) == [];
      assert PySlice(a, -4, |a|) == a;
    }
  }

  /** The downloaded file's rebuilt archive: C300X_010719.fwz becomes
      C300X_010719_new.fwz, and so for every model and version. */
  lemma {:induction false} OutputOfFirmwareName(model: string, version: string)
    ensures OutputName(FirmwareFileName(model, version)) == model + "_" + version + "_new.fwz"
  {
    var a := FirmwareFileName(model, version);
    assert a[..|a| - 4] == model + "_" + version;
    assert a[|a| - 4..] == ".fwz";
  }

  // ---------------------------------------------------------------- saveVersion

  function VersionLine(version: string): string
  {
    "      <version>" + version + "</version>\n"
  }

  /** saveVersion's rule for one line. */
  function SavedLine(line: string, version: string): string
  {
    if Contains(line, "<version>") then VersionLine(version) else line
  }

  /** The lines saveVersion writes: every '<version>' line replaced, the
      others copied, in order. */
  function SavedVersion(lines: seq<string>, version: string): (r: seq<string>)
    ensures |r| == |lines|
    decreases |lines|
  {
    if lines == [] then [] else SavedVersion(lines[..|lines| - 1], version) + [SavedLine(lines[|lines| - 1], version)]
  }

  lemma {:induction false} SavedVersionAt(lines: seq<string>, version: string, i: nat)
    requires i < |lines|
    ensures SavedVersion(lines, version)[i] == SavedLine(lines[i], version)
    decreases |lines|
  {
    if i < |lines| - 1 {
      SavedVersionAt(lines[..|lines| - 1], version, i);
    }
  }

  /** The new version line is itself a '<version>' line ... */
  lemma {:induction false} VersionLineTagged(version: string)
    ensures Contains(VersionLine(version), "<version>")
  {
    var l := VersionLine(version);
    assert l[6..15] == "<version>";
    ContainsAt(l, "<version>", 6);
  }

  /** ... so saving twice is saving the second version once: saving is
      idempotent and the last version saved wins. */
  lemma {:induction false} SavedVersionTwice(lines: seq<string>, v1: string, v2: string)
    ensures SavedVersion(SavedVersion(lines, v1), v2) == SavedVersion(lines, v2)
  {
    var once := SavedVersion(lines, v1);
    forall i | 0 <= i < |lines|
      ensures SavedVersion(once, v2)[i] == SavedVersion(lines, v2)[i]
    {
      SavedVersionAt(lines, v1, i);
      SavedVersionAt(once, v2, i);
      SavedVersionAt(lines, v2, i);
      VersionLineTagged(v1);
    }
  }

  /** saveVersion's copy loop. */
  method SaveVersion(lines: seq<string>, version: string) returns (out: seq<string>)
    ensures out == SavedVersion(lines, version)
  {
    out := [];
    var i := 0;
    while i < |lines|
      invariant 0 <= i <= |lines|
      invariant out == SavedVersion(lines[..i], version)
    {
      var line := lines[i];
      if Contains(line, "<version>") {
        line := VersionLine(version);
      }
      assert lines[..i + 1][..i] == lines[..i];
      out := out + [line];
      i := i + 1;
    }
    assert lines[..|lines|] == lines;
  }

  // ---------------------------------------------------------------- addHostandIP

  function HostLine(host: string, ip: string): string
  {
    "\t/bin/bt_hosts.sh add " + host + " " + ip + "\n"
  }

  /** The index of the first line containing `pat`, or -1. */
  function FirstWith(lines: seq<string>, pat: string): (i: int)
    ensures -1 <= i < |lines|
    ensures i >= 0 ==> Contains(lines[i], pat)
    ensures forall j :: 0 <= j < |lines| && (i < 0 || j < i) ==> !Contains(lines[j], pat)
    decreases |lines|
  {
    if lines == [] then -1
    else if Contains(lines[0], pat) then 0
    else
      var k := FirstWith(lines[1..], pat);
      assert forall j :: 1 <= j < |lines| ==> lines[j] == lines[1..][j - 1];
      if k < 0 then -1 else k + 1
  }

  /** The lines addHostandIP writes back. */
  function WithHost(lines: seq<string>, host: string, ip: string): (out: seq<string>)
    ensures out == lines || (|out| == |lines| + 1 && HostLine(host, ip) in out)
  {
    var i := FirstWith(lines, "openserver");
    if i < 0 then lines else lines[..i + 1] + [HostLine(host, ip)] + lines[i + 1..]
  }

  /** The host line goes in once, right after the first 'openserver' line,
      and taking it out again gives back the file; without such a line the
      file is unchanged. */
  lemma {:induction false} WithHostInverse(lines: seq<string>, host: string, ip: string)
    ensures var i := FirstWith(lines, "openserver"); var out := WithHost(lines, host, ip);
      && (i < 0 <==> forall j :: 0 <= j < |lines| ==> !Contains(lines[j], "openserver"))
      && (i < 0 ==> out == lines)
      && (i >= 0 ==>
            |out| == |lines| + 1 && Contains(out[i], "openserver") &&
            out[i + 1] == HostLine(host, ip) && out[..i + 1] + out[i + 2..] == lines)
  {
    var i := FirstWith(lines, "openserver");
    if i >= 0 {
      var out := WithHost(lines, host, ip);
      assert out[..i + 1] == lines[..i + 1];
      assert out[i + 2..] == lines[i + 1..];
      assert lines == lines[..i + 1] + lines[i + 1..];
    }
  }

  /** addHostandIP's search-and-insert loop, which stops at the first match. */
  method AddHostAndIp(contents: seq<string>, host: string, ip: string) returns (out: seq<string>)
    ensures out == WithHost(contents, host, ip)
  {
    out := contents;
    var i := 0;
    while i < |contents|
      invariant 0 <= i <= |contents|
      invariant forall j :: 0 <= j < i ==> !Contains(contents[j], "openserver")
      invariant out == contents
    {
      if Contains(contents[i], "openserver") {
        out := contents[..i + 1] + [HostLine(host, ip)] + contents[i + 1..];
        return;
      }
      i := i + 1;
    }
  }

  // ---------------------------------------------------------------- listFilesZIP and selectFirmwareFile

  /** The names without 'sig', in order. */
  function WithoutSig(names: seq<string>): (r: seq<string>)
    ensures |r| <= |names|
    decreases |names|
  {
    if names == [] then []
    else
      var last := names[|names| - 1];
      WithoutSig(names[..|names| - 1]) + (if Contains(last, "sig") then [] else [last])
  }

  /** A name is kept exactly when it is listed and does not contain 'sig'. */
  lemma {:induction false} WithoutSigMembers(names: seq<string>, x: string)
    ensures x in WithoutSig(names) <==> x in names && !Contains(x, "sig")
    decreases |names|
  {
    if names != [] {
      var init := names[..|names| - 1];
      WithoutSigMembers(init, x);
      assert names == init + [names[|names| - 1]];
    }
  }

  /** listFilesZIP's result for a `removeSig` answer. */
  function FilesInside(removeSig: Option<string>, names: seq<string>): (r: seq<string>)
    ensures |r| <= |names|
  {
    if removeSig == Some("y") || removeSig == Some("Y") then WithoutSig(names)
    else if removeSig == Some("n") || removeSig == Some("N") then names
    else []
  }

  /** The image the firmware is rebuilt from: a '.gz' part that is not the
      recovery image. */
  predicate IsFirmwareImage(name: string)
  {
    Contains(name, "gz") && !Contains(name, "recovery")
  }

  /** The last firmware image among `files`, if any. */
  function LastImage(files: seq<string>): (r: Option<string>)
    ensures r.Some? ==> r.value in files && IsFirmwareImage(r.value)
    decreases |files|
  {
    if files == [] then None
    else if IsFirmwareImage(files[|files| - 1]) then Some(files[|files| - 1])
    else LastImage(files[..|files| - 1])
  }

  /** LastImage names a listed image after which no other image is listed,
      and is None exactly when no image is listed. */
  lemma {:induction false} LastImageSpec(files: seq<string>)
    ensures LastImage(files).None? <==> forall i :: 0 <= i < |files| ==> !IsFirmwareImage(files[i])
    ensures LastImage(files).Some? ==>
      exists i :: 0 <= i < |files| && files[i] == LastImage(files).value && IsFirmwareImage(files[i]) &&
        forall j :: i < j < |files| ==> !IsFirmwareImage(files[j])
    decreases |files|
  {
    if files != [] && !IsFirmwareImage(files[|files| - 1]) {
      var init := files[..|files| - 1];
      LastImageSpec(init);
      assert LastImage(files) == LastImage(init);
      assert forall i :: 0 <= i < |init| ==> init[i] == files[i];
      if LastImage(init).Some? {
        var i :| 0 <= i < |init| && init[i] == LastImage(init).value && IsFirmwareImage(init[i]) &&
          forall j :: i < j < |init| ==> !IsFirmwareImage(init[j]);
        assert forall j :: i < j < |files| ==> !IsFirmwareImage(files[j]);
      }
    }
  }

  function UrlOf(model: string): string
    requires IsModel(model)
  {
    if model == "C300X" then URL_C300X else URL_C100X
  }

  /** The version each model's built-in URL carries. */
  function KnownVersion(model: string): string
    requires IsModel(model)
  {
    if model == "C300X" then VERSION_C300X else VERSION_C100X
  }

  /** The same, in human form. */
  function KnownHumanVersion(model: string): string
    requires IsModel(model)
  {
    if model == "C300X" then HUMAN_C300X else HUMAN_C100X
  }

  lemma {:induction false} KnownVersionOfUrl(model: string)
    requires IsModel(model)
    ensures VersionFromUrl(UrlOf(model), model, false) == Ok(KnownVersion(model))
    ensures VersionFromUrl(UrlOf(model), model, true) == Ok(KnownHumanVersion(model))
  {
    if model == "C300X" { VersionC300X(); } else { VersionC100X(); }
  }

  predicate IsYesNo(a: string) { a == "y" || a == "Y" || a == "n" || a == "N" }

  /** `ask.lower()` of an accepted answer is "y" or "n". */
  lemma {:induction false} AnswerLower(a: string)
    requires IsYesNo(a)
    ensures Lower(a) == if a == "y" || a == "Y" then "y" else "n"
  {
    assert a[1..] == [];
  }

  predicate Answered(v: Option<string>) { v == Some("y") || v == Some("n") }

  const DEFAULT_ROOT_PASSWORD: string := "pwned123"

  // ---------------------------------------------------------------- the wizard

  class Prepare {
    var model: string
    var url: string
    var filename: Option<string>
    var useWebFirmware: Option<string>
    var rootPassword: Option<string>
    var sshCreation: Option<string>
    var removeSig: Option<string>
    var installMqtt: Option<string>
    var notifyNewFirmware: Option<string>
    var prtFrmw: Option<string>
    /** The question the wizard is at; 6 is "all answered". */
    var step: nat

    /** What the answers given so far guarantee: a known model with its
        URL, a file name (the known version's when downloading), a root
        password, and "y" or "n" for every yes/no question passed. */
    predicate Valid()
      reads this
    {
      && step <= 6
      && (step >= 1 ==> IsModel(model) && url == UrlOf(model))
      && (step >= 2 ==>
            Answered(useWebFirmware) && filename.Some? &&
            (useWebFirmware == Some("y") ==> filename == Some(FirmwareFileName(model, KnownVersion(model)))))
      && (step >= 3 ==> rootPassword.Some? && rootPassword != Some("") && Answered(sshCreation))
      && (step >= 4 ==> Answered(removeSig))
      && (step >= 5 ==> Answered(installMqtt))
      && (step >= 6 ==> Answered(notifyNewFirmware))
    }

    /** The state `__init__` leaves: nothing answered yet. */
    constructor ()
      ensures Valid() && step == 0
      ensures filename == None && useWebFirmware == None && rootPassword == None && sshCreation == None
      ensures removeSig == None && installMqtt == None && notifyNewFirmware == None && prtFrmw == None
    {
      model := "";
      url := "";
      filename := None;
      useWebFirmware := None;
      rootPassword := None;
      sshCreation := None;
      removeSig := None;
      installMqtt := None;
      notifyNewFirmware := None;
      prtFrmw := None;
      step := 0;
    }

    /** One round of the model question. */
    method AskModel(answer: string)
      requires Valid() && step == 0
      modifies this
      ensures Valid() && model == answer
      ensures IsModel(answer) ==> step == 1 && url == UrlOf(answer)
      ensures !IsModel(answer) ==> step == 0 && url == old(url)
      ensures filename == old(filename) && useWebFirmware == old(useWebFirmware)
      ensures rootPassword == old(rootPassword) && sshCreation == old(sshCreation) && removeSig == old(removeSig)
      ensures installMqtt == old(installMqtt) && notifyNewFirmware == old(notifyNewFirmware) && prtFrmw == old(prtFrmw)
    {
      model := answer;
      if model == "C300X" {
        url := URL_C300X;
        step := 1;
      } else if model == "C100X" {
        url := URL_C100X;
        step := 1;
      }
    }

    /** getVersionFromURL on the wizard's own model and URL, once the
        model is chosen: the version the built-in URL carries. */
    method GetVersionFromUrl(human: bool) returns (r: Result<string, VersionError>)
      requires Valid() && step >= 1
      ensures r == Ok(if human then KnownHumanVersion(model) else KnownVersion(model))
    {
      KnownVersionOfUrl(model);
      r := VersionFromUrl(url, model, human);
    }

    /** One round of the download question; `typedName` is the file name
        typed after answering "n". */
    method AskDownload(ask: string, typedName: string)
      requires Valid() && step == 1
      modifies this
      ensures Valid()
      ensures IsYesNo(ask) ==> step == 2 && useWebFirmware == Some(Lower(ask))
      ensures (ask == "y" || ask == "Y") ==> filename == Some(FirmwareFileName(model, KnownVersion(model)))
      ensures (ask == "n" || ask == "N") ==> filename == Some(typedName)
      ensures !IsYesNo(ask) ==> step == 1 && useWebFirmware == old(useWebFirmware) && filename == old(filename)
      ensures model == old(model) && url == old(url)
      ensures rootPassword == old(rootPassword) && sshCreation == old(sshCreation) && removeSig == old(removeSig)
      ensures installMqtt == old(installMqtt) && notifyNewFirmware == old(notifyNewFirmware) && prtFrmw == old(prtFrmw)
    {
      if ask == "y" || ask == "Y" {
        AnswerLower(ask);
        useWebFirmware := Some(Lower(ask));
        var version := GetVersionFromUrl(false);
        filename := Some(FirmwareFileName(model, version.value));
        step := 2;
      } else if ask == "n" || ask == "N" {
        AnswerLower(ask);
        useWebFirmware := Some(Lower(ask));
        filename := Some(typedName);
        step := 2;
      }
    }

    /** One round of the root password and SSH key questions. */
    method AskRootPasswordAndKey(password: string, ask: string)
      requires Valid() && step == 2
      modifies this
      ensures Valid()
      ensures rootPassword == Some(if password == "" then DEFAULT_ROOT_PASSWORD else password)
      ensures IsYesNo(ask) ==> step == 3 && sshCreation == Some(Lower(ask))
      ensures !IsYesNo(ask) ==> step == 2 && sshCreation == old(sshCreation)
      ensures model == old(model) && url == old(url) && filename == old(filename) && useWebFirmware == old(useWebFirmware)
      ensures removeSig == old(removeSig)
      ensures installMqtt == old(installMqtt) && notifyNewFirmware == old(notifyNewFirmware) && prtFrmw == old(prtFrmw)
    {
      rootPassword := Some(password);
      if password == "" {
        rootPassword := Some(DEFAULT_ROOT_PASSWORD);
      }
      if IsYesNo(ask) {
        AnswerLower(ask);
        sshCreation := Some(Lower(ask));
        step := 3;
      }
    }

    /** One round of the signature-files question. */
    method AskRemoveSig(ask: string)
      requires Valid() && step == 3
      modifies this
      ensures Valid()
      ensures IsYesNo(ask) ==> step == 4 && removeSig == Some(Lower(ask))
      ensures !IsYesNo(ask) ==> step == 3 && removeSig == old(removeSig)
      ensures model == old(model) && url == old(url) && filename == old(filename) && useWebFirmware == old(useWebFirmware)
      ensures rootPassword == old(rootPassword) && sshCreation == old(sshCreation)
      ensures installMqtt == old(installMqtt) && notifyNewFirmware == old(notifyNewFirmware) && prtFrmw == old(prtFrmw)
    {
      if IsYesNo(ask) {
        AnswerLower(ask);
        removeSig := Some(Lower(ask));
        step := 4;
      }
    }

    /** One round of the MQTT question. */
    method AskInstallMqtt(ask: string)
      requires Valid() && step == 4
      modifies this
      ensures Valid()
      ensures IsYesNo(ask) ==> step == 5 && installMqtt == Some(Lower(ask))
      ensures !IsYesNo(ask) ==> step == 4 && installMqtt == old(installMqtt)
      ensures model == old(model) && url == old(url) && filename == old(filename) && useWebFirmware == old(useWebFirmware)
      ensures rootPassword == old(rootPassword) && sshCreation == old(sshCreation) && removeSig == old(removeSig)
      ensures notifyNewFirmware == old(notifyNewFirmware) && prtFrmw == old(prtFrmw)
    {
      if IsYesNo(ask) {
        AnswerLower(ask);
        installMqtt := Some(Lower(ask));
        step := 5;
      }
    }

    /** One round of the new-firmware notification question. */
    method AskNotify(ask: string)
      requires Valid() && step == 5
      modifies this
      ensures Valid()
      ensures IsYesNo(ask) ==> step == 6 && notifyNewFirmware == Some(Lower(ask))
      ensures !IsYesNo(ask) ==> step == 5 && notifyNewFirmware == old(notifyNewFirmware)
      ensures model == old(model) && url == old(url) && filename == old(filename) && useWebFirmware == old(useWebFirmware)
      ensures rootPassword == old(rootPassword) && sshCreation == old(sshCreation) && removeSig == old(removeSig)
      ensures installMqtt == old(installMqtt) && prtFrmw == old(prtFrmw)
    {
      if IsYesNo(ask) {
        AnswerLower(ask);
        notifyNewFirmware := Some(Lower(ask));
        step := 6;
      }
    }

    /** The wizard of `main`: the questions asked in order over the scripted answers, each
        repeated until accepted; the run ends when every question is
        answered (`processed`, where processFirmware takes over) or when the
        answers run out. */
    method RunWizard(inputs: seq<string>) returns (processed: bool, consumed: nat)
      requires Valid()
      modifies this
      ensures Valid() && step >= old(step)
      ensures processed <==> step == 6
      ensures consumed <= |inputs| && (step < 6 ==> consumed + 1 >= |inputs|)
    {
      consumed := 0;
      while step < 6 && consumed < |inputs|
        invariant Valid() && step >= old(step) && consumed <= |inputs|
        decreases |inputs| - consumed
      {
        var ask := inputs[consumed];
        if step == 0 {
          AskModel(ask);
          consumed := consumed + 1;
        } else if step == 1 {
          if ask == "n" || ask == "N" {
            if consumed + 1 == |inputs| {
              break;
            }
            AskDownload(ask, inputs[consumed + 1]);
            consumed := consumed + 2;
          } else {
            AskDownload(ask, "");
            consumed := consumed + 1;
          }
        } else if step == 2 {
          if consumed + 1 == |inputs| {
            break;
          }
          AskRootPasswordAndKey(ask, inputs[consumed + 1]);
          consumed := consumed + 2;
        } else if step == 3 {
          AskRemoveSig(ask);
          consumed := consumed + 1;
        } else if step == 4 {
          AskInstallMqtt(ask);
          consumed := consumed + 1;
        } else {
          AskNotify(ask);
          consumed := consumed + 1;
        }
      }
      processed := step == 6;
    }

    /** listFilesZIP's filter over the archive's names. */
    method ListFilesZip(names: seq<string>) returns (list: seq<string>)
      ensures list == FilesInside(removeSig, names)
    {
      list := [];
      if removeSig == Some("y") || removeSig == Some("Y") {
        var i := 0;
        while i < |names|
          invariant 0 <= i <= |names|
          invariant list == WithoutSig(names[..i])
        {
          assert names[..i + 1][..i] == names[..i];
          if !Contains(names[i], "sig") {
            list := list + [names[i]];
          }
          i := i + 1;
        }
        assert names[..|names|] == names;
      } else if removeSig == Some("n") || removeSig == Some("N") {
        list := names;
      }
    }

    /** selectFirmwareFile: the last firmware image listed becomes `prtFrmw`;
        without one, `prtFrmw` keeps its value. */
    method SelectFirmwareFile(files: seq<string>)
      modifies this
      ensures prtFrmw == if LastImage(files).Some? then LastImage(files) else old(prtFrmw)
      ensures model == old(model) && url == old(url) && filename == old(filename) && step == old(step)
      ensures useWebFirmware == old(useWebFirmware) && rootPassword == old(rootPassword)
      ensures sshCreation == old(sshCreation) && removeSig == old(removeSig)
      ensures installMqtt == old(installMqtt) && notifyNewFirmware == old(notifyNewFirmware)
    {
      var i := 0;
      while i < |files|
        invariant 0 <= i <= |files|
        invariant prtFrmw == if LastImage(files[..i]).Some? then LastImage(files[..i]) else old(prtFrmw)
        invariant model == old(model) && url == old(url) && filename == old(filename) && step == old(step)
        invariant useWebFirmware == old(useWebFirmware) && rootPassword == old(rootPassword)
        invariant sshCreation == old(sshCreation) && removeSig == old(removeSig)
        invariant installMqtt == old(installMqtt) && notifyNewFirmware == old(notifyNewFirmware)
      {
        assert files[..i + 1][..i] == files[..i];
        if IsFirmwareImage(files[i]) {
          prtFrmw := Some(files[i]);
        }
        i := i + 1;
      }
      assert files[..|files|] == files;
    }
  }
}
