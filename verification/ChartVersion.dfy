/**
 * The Helm chart version scripts: sync-chart-version.sh writes a version into Chart.yaml and
 * values.yaml, verify-chart-version.sh reads it back. A file is the sequence of its lines.
 */
module ChartVersion {
  import opened Wrappers
  import opened LuaText

  type File = seq<string>

  // ---------------------------------------------------------------------------
  // Versions

  // ${VERSION#v}
  function StripV(arg: string): string {
    if arg != "" && arg[0] == 'v' then arg[1..] else arg
  }

  predicate IsLetterOrDigit(c: char) {
    IsDigit(c) || 'A' <= c <= 'Z' || 'a' <= c <= 'z'
  }

  predicate IsVersionChar(c: char) {
    IsLetterOrDigit(c) || c == '.' || c == '-' || c == '+'
  }

  // The end of a number at pos, if there is one.
  function NumberEnd(v: string, pos: nat): (r: Option<nat>)
    requires pos <= |v|
    ensures r.Some? ==> pos < r.value <= |v| && AllDigits(v[pos..r.value])
  {
    var q := SkipDigits(v, pos);
    if q == pos then None else Some(q)
  }

  // ([-.+][0-9A-Za-z.-]+)?
  predicate IsVersionTail(t: string) {
    t == ""
    || (|t| > 1 && (t[0] == '-' || t[0] == '.' || t[0] == '+')
        && forall i :: 1 <= i < |t| ==> IsLetterOrDigit(t[i]) || t[i] == '.' || t[i] == '-')
  }

  // ^[0-9]+\.[0-9]+\.[0-9]+([-.+][0-9A-Za-z.-]+)?$
  predicate IsVersion(v: string) {
    var a := NumberEnd(v, 0);
    a.Some? && a.value < |v| && v[a.value] == '.'
    && var b := NumberEnd(v, a.value + 1);
       b.Some? && b.value < |v| && v[b.value] == '.'
       && var c := NumberEnd(v, b.value + 1);
          c.Some? && IsVersionTail(v[c.value..])
  }

  lemma {:induction false} StripVIs(v: string)
    ensures StripV("v" + v) == v
    ensures v == "" || v[0] != 'v' ==> StripV(v) == v
  {
    assert ("v" + v)[1..] == v;
  }

  // The pattern, told from the text.
  ghost predicate VersionParts(v: string, a: string, b: string, c: string, t: string) {
    && a != "" && AllDigits(a) && b != "" && AllDigits(b) && c != "" && AllDigits(c)
    && (t == "" || (|t| > 1 && t[0] in "-.+" && forall i :: 1 <= i < |t| ==>
                      '0' <= t[i] <= '9' || 'A' <= t[i] <= 'Z' || 'a' <= t[i] <= 'z' || t[i] in ".-"))
    && v == a + "." + b + "." + c + t
  }

  lemma {:induction false} NumberEndIs(v: string, pos: nat, a: string)
    requires At(v, pos, a) && a != "" && AllDigits(a)
    requires pos + |a| < |v| ==> !IsDigit(v[pos + |a|])
    ensures NumberEnd(v, pos) == Some(pos + |a|)
  {
    SkipsDigitsExactly(v, pos, a);
  }

  lemma {:induction false} PartsAt(v: string, a: string, b: string, c: string, t: string)
    requires v == a + "." + b + "." + c + t
    ensures At(v, 0, a) && At(v, |a| + 1, b) && At(v, |a| + |b| + 2, c)
    ensures |v| == |a| + |b| + |c| + |t| + 2 && v[|a|] == '.' && v[|a| + |b| + 1] == '.'
    ensures v[|a| + |b| + |c| + 2..] == t
  {}

  lemma {:induction false} PartsAreVersion(v: string, a: string, b: string, c: string, t: string)
    requires VersionParts(v, a, b, c, t)
    ensures IsVersion(v)
  {
    hide At, NumberEnd;
    PartsAt(v, a, b, c, t);
    NumberEndIs(v, 0, a);
    NumberEndIs(v, |a| + 1, b);
    assert t != "" ==> v[|a| + |b| + |c| + 2] == t[0];
    NumberEndIs(v, |a| + |b| + 2, c);
  }

  lemma {:induction false} IsVersionIff(v: string)
    ensures IsVersion(v) <==> exists a, b, c, t :: VersionParts(v, a, b, c, t)
  {
    hide IsVersion, VersionParts;
    if IsVersion(v) {
      var a, b, c, t := VersionHasParts(v);
    }
    forall a, b, c, t | VersionParts(v, a, b, c, t) ensures IsVersion(v) {
      PartsAreVersion(v, a, b, c, t);
    }
  }

  lemma {:induction false} VersionHasParts(v: string) returns (a: string, b: string, c: string, t: string)
    requires IsVersion(v)
    ensures VersionParts(v, a, b, c, t)
  {
    hide NumberEnd, AllDigits;
    var p := NumberEnd(v, 0).value;
    var q := NumberEnd(v, p + 1).value;
    var r := NumberEnd(v, q + 1).value;
    a, b, c, t := v[0..p], v[p + 1..q], v[q + 1..r], v[r..];
    ThreeParts(v, p, q, r);
  }

  lemma {:induction false} ThreeParts(v: string, p: nat, q: nat, r: nat)
    requires p < q < r <= |v| && v[p] == '.' && v[q] == '.'
    ensures v == v[0..p] + "." + v[p + 1..q] + "." + v[q + 1..r] + v[r..]
  {}

  lemma {:induction false} VersionChars(v: string)
    requires IsVersion(v)
    ensures v != "" && forall i :: 0 <= i < |v| ==> IsVersionChar(v[i])
  {
    var a := NumberEnd(v, 0).value;
    var b := NumberEnd(v, a + 1).value;
    var c := NumberEnd(v, b + 1).value;
    forall i | 0 <= i < |v| ensures IsVersionChar(v[i]) {
      if i < a {
        assert v[i] == v[0..a][i];
      } else if a < i < b {
        assert v[i] == v[a + 1..b][i - a - 1];
      } else if b < i < c {
        assert v[i] == v[b + 1..c][i - b - 1];
      } else if c <= i {
        assert v[i] == v[c..][i - c];
      }
    }
  }

  // ---------------------------------------------------------------------------
  // awk

  predicate Starts(line: string, p: string) {
    At(line, 0, p)
  }

  lemma {:induction false} StartsFirst(line: string, p: string)
    requires p != ""
    ensures Starts(line, p) ==> line != "" && line[0] == p[0]
  {
    if Starts(line, p) {
      assert line[..|p|][0] == line[0];
    }
  }

  // The default field separators.
  predicate IsBlank(c: char) {
    c == ' ' || c == '\t' || c == '\n'
  }

  function SkipBlanks(s: string, pos: nat): (q: nat)
    requires pos <= |s|
    ensures pos <= q <= |s|
    ensures forall i :: pos <= i < q ==> IsBlank(s[i])
    ensures q < |s| ==> !IsBlank(s[q])
    decreases |s| - pos
  {
    if pos < |s| && IsBlank(s[pos]) then SkipBlanks(s, pos + 1) else pos
  }

  function SkipWord(s: string, pos: nat): (q: nat)
    requires pos <= |s|
    ensures pos <= q <= |s|
    ensures forall i :: pos <= i < q ==> !IsBlank(s[i])
    ensures q < |s| ==> IsBlank(s[q])
    decreases |s| - pos
  {
    if pos < |s| && !IsBlank(s[pos]) then SkipWord(s, pos + 1) else pos
  }

  // The field at or behind pos, with the position behind it.
  function FieldAt(s: string, pos: nat): (r: (string, nat))
    requires pos <= |s|
    ensures pos <= r.1 <= |s|
  {
    var a := SkipBlanks(s, pos);
    var b := SkipWord(s, a);
    (s[a..b], b)
  }

  // $1 and $2
  function Field1(s: string): string {
    FieldAt(s, 0).0
  }

  function Field2(s: string): string {
    FieldAt(s, FieldAt(s, 0).1).0
  }

  // gsub(/^"/, ""); gsub(/"$/, "")
  function Unquote(s: string): string {
    var t := if s != "" && s[0] == '"' then s[1..] else s;
    if t != "" && t[|t| - 1] == '"' then t[..|t| - 1] else t
  }

  predicate IsWord(s: string) {
    s != "" && forall i :: 0 <= i < |s| ==> !IsBlank(s[i])
  }

  // Blanks and tabs separate the fields, and nothing else does within a line.
  predicate Gap(s: string) {
    forall i :: 0 <= i < |s| ==> s[i] in " \t"
  }

  predicate Word(s: string) {
    s != "" && forall i :: 0 <= i < |s| ==> s[i] !in " \t\n"
  }

  lemma {:induction false} FieldFound(s: string, pos: nat, gap: string, w: string)
    requires At(s, pos, gap + w) && Gap(gap) && Word(w)
    requires var q := pos + |gap| + |w|; q < |s| ==> s[q] in " \t"
    ensures FieldAt(s, pos) == (w, pos + |gap| + |w|)
  {
    var p, q := pos + |gap|, pos + |gap| + |w|;
    AtConcat(s, pos, gap, w);
    assert s[pos..p] == gap && s[p..q] == w;
    assert forall i :: pos <= i < p ==> s[i] == gap[i - pos];
    assert forall i :: p <= i < q ==> s[i] == w[i - p];
    BlanksEnd(s, pos, p);
    WordEnds(s, p, q);
  }

  // The first two words of a line are its fields, whatever follows them.
  lemma {:induction false} FieldsAre(line: string, b0: string, w1: string, b1: string, w2: string, rest: string)
    requires line == b0 + w1 + b1 + w2 + rest
    requires Gap(b0) && Word(w1) && Gap(b1) && b1 != "" && Word(w2) && (rest != "" ==> rest[0] in " \t")
    ensures Field1(line) == w1 && Field2(line) == w2
  {
    hide Gap, Word, FieldAt;
    var q := |b0| + |w1|;
    assert line[0..q] == b0 + w1 && line[q..q + |b1| + |w2|] == b1 + w2;
    assert line[q] == b1[0];
    GapStarts(b1);
    assert rest != "" ==> line[q + |b1| + |w2|] == rest[0];
    FieldFound(line, 0, b0, w1);
    FieldFound(line, q, b1, w2);
  }

  lemma {:induction false} GapStarts(b: string)
    requires Gap(b) && b != ""
    ensures b[0] in " \t"
  {}

  // One quote goes on either side, where there is one.
  lemma {:induction false} UnquoteIs(w: string, front: bool, back: bool)
    requires !front && w != "" ==> w[0] != '"'
    requires !back && w != "" ==> w[|w| - 1] != '"'
    ensures Unquote((if front then "\"" else "") + w + (if back then "\"" else "")) == w
  {
    var s := (if front then "\"" else "") + w + (if back then "\"" else "");
    var t := if s != "" && s[0] == '"' then s[1..] else s;
    assert w != "" ==> t == w + (if back then "\"" else "");
  }

  // A line of space, a word, one blank and a last word.
  lemma {:induction false} TwoFields(ws: string, a: string, b: string)
    requires (forall i :: 0 <= i < |ws| ==> IsBlank(ws[i])) && IsWord(a) && IsWord(b)
    ensures Field1(ws + a + " " + b) == a && Field2(ws + a + " " + b) == b
  {
    var s := ws + a + " " + b;
    var p, q := |ws|, |ws| + |a|;
    assert s[p] == a[0] && s[q] == ' ' && s[q + 1] == b[0];
    assert forall i :: p <= i < q ==> s[i] == a[i - p];
    assert forall i :: q < i < |s| ==> s[i] == b[i - q - 1];
    BlanksEnd(s, 0, p);
    WordEnds(s, p, q);
    BlanksEnd(s, q, q + 1);
    WordEnds(s, q + 1, |s|);
    assert s[p..q] == a && s[q + 1..|s|] == b;
  }

  lemma {:induction false} BlanksEnd(s: string, pos: nat, q: nat)
    requires pos <= q <= |s| && (forall i :: pos <= i < q ==> IsBlank(s[i])) && (q < |s| ==> !IsBlank(s[q]))
    ensures SkipBlanks(s, pos) == q
  {
    var r := SkipBlanks(s, pos);
    assert !(r < q) && !(q < r);
  }

  lemma {:induction false} WordEnds(s: string, pos: nat, q: nat)
    requires pos <= q <= |s| && (forall i :: pos <= i < q ==> !IsBlank(s[i])) && (q < |s| ==> IsBlank(s[q]))
    ensures SkipWord(s, pos) == q
  {
    var r := SkipWord(s, pos);
    assert !(r < q) && !(q < r);
  }

  lemma {:induction false} UnquoteVersion(v: string)
    requires IsVersion(v)
    ensures IsWord(v) && IsWord("\"" + v + "\"")
    ensures Unquote(v) == v && Unquote("\"" + v + "\"") == v
  {
    VersionChars(v);
    var q := "\"" + v + "\"";
    assert q[1..] == v + "\"" && (v + "\"")[..|v|] == v;
    forall i | 0 <= i < |q| ensures !IsBlank(q[i]) {
      assert 1 <= i <= |v| ==> q[i] == v[i - 1];
    }
  }

  // ---------------------------------------------------------------------------
  // Chart.yaml

  const VERSION_KEY: string := "version:"
  const APP_VERSION_KEY: string := "appVersion:"

  function SyncChartLine(v: string, line: string): string {
    if Starts(line, VERSION_KEY) then "version: " + v
    else if Starts(line, APP_VERSION_KEY) then "appVersion: \"" + v + "\""
    else line
  }

  // The first awk program of sync-chart-version.sh.
  function SyncChart(v: string, file: File): (out: File)
    ensures |out| == |file|
    ensures forall i :: 0 <= i < |file| ==> out[i] == SyncChartLine(v, file[i])
  {
    seq(|file|, i requires 0 <= i < |file| => SyncChartLine(v, file[i]))
  }

  // read_chart_field of verify-chart-version.sh, from line i on; `key` ends with the colon.
  function ReadField(key: string, file: File, i: nat): string
    requires i <= |file|
    decreases |file| - i
  {
    if i == |file| then ""
    else if Field1(file[i]) == key then Unquote(Field2(file[i]))
    else ReadField(key, file, i + 1)
  }

  predicate IsKey(key: string) {
    key == VERSION_KEY || key == APP_VERSION_KEY
  }

  // A line that the writer or the reader takes for the field.
  predicate Mentions(key: string, line: string) {
    Starts(line, key) || Field1(line) == key
  }

  // The first line mentioning the field does so at column 0.
  predicate FieldAtColumn0(key: string, file: File, i: nat)
    requires i <= |file|
    decreases |file| - i
  {
    i < |file| && if Mentions(key, file[i]) then Starts(file[i], key) else FieldAtColumn0(key, file, i + 1)
  }

  // How a line looks to the reader once it was synced.
  lemma {:induction false} SyncedLine(v: string, key: string, line: string)
    requires IsVersion(v) && IsKey(key)
    ensures Starts(line, key) ==> Field1(SyncChartLine(v, line)) == key && Unquote(Field2(SyncChartLine(v, line))) == v
    ensures !Starts(line, key) ==>
              (Field1(SyncChartLine(v, line)) == key <==> Field1(line) == key)
              && (Field1(line) == key ==> SyncChartLine(v, line) == line)
  {
    hide Field1, Field2, Unquote, IsVersion;
    WrittenFields(v);
    OtherKey(line, key);
    KeysDiffer(line);
  }

  lemma {:induction false} KeysDiffer(line: string)
    ensures !(Starts(line, VERSION_KEY) && Starts(line, APP_VERSION_KEY))
    ensures VERSION_KEY != APP_VERSION_KEY
  {
    assert VERSION_KEY[0] != APP_VERSION_KEY[0];
    StartsFirst(line, VERSION_KEY);
    StartsFirst(line, APP_VERSION_KEY);
  }

  lemma {:induction false} WrittenFields(v: string)
    requires IsVersion(v)
    ensures Field1("version: " + v) == VERSION_KEY && Unquote(Field2("version: " + v)) == v
    ensures Field1("appVersion: \"" + v + "\"") == APP_VERSION_KEY && Unquote(Field2("appVersion: \"" + v + "\"")) == v
  {
    hide Field1, Field2, Unquote, IsVersion;
    UnquoteVersion(v);
    assert "" + VERSION_KEY + " " + v == "version: " + v;
    assert "" + APP_VERSION_KEY + " " + ("\"" + v + "\"") == "appVersion: \"" + v + "\"";
    TwoFields("", VERSION_KEY, v);
    TwoFields("", APP_VERSION_KEY, "\"" + v + "\"");
  }

  // A line that starts with one key is not read as the other.
  lemma {:induction false} OtherKey(line: string, key: string)
    requires IsKey(key)
    ensures (Starts(line, VERSION_KEY) || Starts(line, APP_VERSION_KEY)) && !Starts(line, key) ==> Field1(line) != key
  {
    StartsFirst(line, VERSION_KEY);
    StartsFirst(line, APP_VERSION_KEY);
    if (Starts(line, VERSION_KEY) || Starts(line, APP_VERSION_KEY)) && !Starts(line, key) {
      assert Field1(line) != "" ==> Field1(line)[0] == line[0];
    }
  }

  // After syncing version v the reader gets v for the field, unless a line above the field's
  // own line mentions it further to the right.
  lemma {:induction false} FieldReadsBack(v: string, key: string, file: File, i: nat)
    requires IsVersion(v) && IsKey(key) && i <= |file| && FieldAtColumn0(key, file, i)
    ensures ReadField(key, SyncChart(v, file), i) == v
    decreases |file| - i
  {
    hide Field1, Field2, SyncChartLine, Unquote, IsVersion;
    SyncedLine(v, key, file[i]);
    if !Starts(file[i], key) {
      FieldReadsBack(v, key, file, i + 1);
    }
  }

  // Otherwise the reader gets the same value whatever was synced.
  lemma {:induction false} FieldStuck(v: string, w: string, key: string, file: File, i: nat)
    requires IsVersion(v) && IsVersion(w) && IsKey(key) && i <= |file| && !FieldAtColumn0(key, file, i)
    ensures ReadField(key, SyncChart(v, file), i) == ReadField(key, SyncChart(w, file), i)
    decreases |file| - i
  {
    hide Field1, Field2, SyncChartLine, Unquote, IsVersion;
    if i < |file| {
      SyncedLine(v, key, file[i]);
      SyncedLine(w, key, file[i]);
      if !Mentions(key, file[i]) {
        FieldStuck(v, w, key, file, i + 1);
      }
    }
  }

  // Whatever version is written, it is read back: exactly when the first line mentioning the
  // field does so at column 0.
  lemma {:induction false} ChartLens(key: string, file: File)
    requires IsKey(key)
    ensures (forall v :: IsVersion(v) ==> ReadField(key, SyncChart(v, file), 0) == v) <==> FieldAtColumn0(key, file, 0)
  {
    hide ReadField, FieldAtColumn0, IsVersion, SyncChart;
    if FieldAtColumn0(key, file, 0) {
      forall v | IsVersion(v) ensures ReadField(key, SyncChart(v, file), 0) == v {
        FieldReadsBack(v, key, file, 0);
      }
    } else {
      TwoVersions();
      FieldStuck("0.0.0", "0.0.1", key, file, 0);
    }
  }

  lemma {:induction false} TwoVersions()
    ensures IsVersion("0.0.0") && IsVersion("0.0.1") && "0.0.0" != "0.0.1"
  {
    assert "0.0.0"[4] != "0.0.1"[4];
    assert "0.0.0"[5..] == "" && "0.0.1"[5..] == "";
  }

  // The last version written counts, and only the two fields are written.
  lemma {:induction false} ChartSyncTwice(v: string, w: string, file: File)
    ensures SyncChart(w, SyncChart(v, file)) == SyncChart(w, file)
  {
    forall i | 0 <= i < |file| ensures SyncChartLine(w, SyncChartLine(v, file[i])) == SyncChartLine(w, file[i]) {
      var line := file[i];
      if Starts(line, VERSION_KEY) {
        assert ("version: " + v)[..|VERSION_KEY|] == VERSION_KEY;
      } else if Starts(line, APP_VERSION_KEY) {
        var out := "appVersion: \"" + v + "\"";
        assert out[..|APP_VERSION_KEY|] == APP_VERSION_KEY;
        assert out[0] == 'a' && out[..|VERSION_KEY|][0] == 'a';
      }
    }
  }

  // What is written, as text.
  lemma {:induction false} ChartWritten(v: string, file: File, i: nat, rest: string)
    requires i < |file|
    ensures |SyncChart(v, file)| == |file|
    ensures file[i] == "version:" + rest ==> SyncChart(v, file)[i] == "version: " + v
    ensures file[i] == "appVersion:" + rest ==> SyncChart(v, file)[i] == "appVersion: \"" + v + "\""
    ensures !At(file[i], 0, "version:") && !At(file[i], 0, "appVersion:") ==> SyncChart(v, file)[i] == file[i]
  {
    if file[i] == "appVersion:" + rest {
      assert file[i][0] == 'a';
    }
  }

  // A line is left alone by every version exactly when it has neither field at column 0.
  lemma {:induction false} ChartUntouched(file: File, i: nat)
    requires i < |file|
    ensures (forall v :: IsVersion(v) ==> |SyncChart(v, file)| == |file| && SyncChart(v, file)[i] == file[i])
        <==> !Starts(file[i], VERSION_KEY) && !Starts(file[i], APP_VERSION_KEY)
  {
    hide IsVersion, Starts;
    TwoVersions();
    LinesDiffer();
    if forall v :: IsVersion(v) ==> |SyncChart(v, file)| == |file| && SyncChart(v, file)[i] == file[i] {
      assert SyncChart("0.0.0", file)[i] == file[i] == SyncChart("0.0.1", file)[i];
    }
  }

  lemma {:induction false} LinesDiffer()
    ensures "version: " + "0.0.0" != "version: " + "0.0.1"
    ensures "appVersion: \"" + "0.0.0" + "\"" != "appVersion: \"" + "0.0.1" + "\""
  {
    assert ("version: " + "0.0.0")[13] != ("version: " + "0.0.1")[13];
    assert ("appVersion: \"" + "0.0.0" + "\"")[17] != ("appVersion: \"" + "0.0.1" + "\"")[17];
  }

  // Every other field is read as before.
  lemma {:induction false} OtherFieldsKept(v: string, key: string, file: File, i: nat)
    requires IsVersion(v) && key != "" && i <= |file|
    requires !Starts(key, VERSION_KEY) && !Starts(key, APP_VERSION_KEY)
    ensures ReadField(key, SyncChart(v, file), i) == ReadField(key, file, i)
    decreases |file| - i
  {
    if i < |file| {
      hide *;
      OtherFieldsKept(v, key, file, i + 1);
      OtherLine(v, key, file[i]);
      ReadFieldStep(key, file, i);
      ReadFieldStep(key, SyncChart(v, file), i);
    }
  }

  lemma {:induction false} ReadFieldStep(key: string, file: File, i: nat)
    requires i < |file|
    ensures ReadField(key, file, i)
         == if Field1(file[i]) == key then Unquote(Field2(file[i])) else ReadField(key, file, i + 1)
  {
    hide Field1, Field2, Unquote;
  }

  lemma {:induction false} OtherLine(v: string, key: string, line: string)
    requires IsVersion(v) && !Starts(key, VERSION_KEY) && !Starts(key, APP_VERSION_KEY)
    ensures Field1(SyncChartLine(v, line)) == key <==> Field1(line) == key
    ensures Field1(line) == key ==> SyncChartLine(v, line) == line
  {
    hide Field1, Field2, Unquote, IsVersion, Starts;
    WrittenFields(v);
    StartsItself();
    if Starts(line, VERSION_KEY) {
      FirstWord(line, VERSION_KEY);
    } else if Starts(line, APP_VERSION_KEY) {
      FirstWord(line, APP_VERSION_KEY);
    }
  }

  lemma {:induction false} StartsItself()
    ensures Starts(VERSION_KEY, VERSION_KEY) && Starts(APP_VERSION_KEY, APP_VERSION_KEY)
  {}

  // A line that starts with a key has a first word that does.
  lemma {:induction false} FirstWord(line: string, key: string)
    requires IsKey(key) && Starts(line, key)
    ensures Starts(Field1(line), key)
  {
    assert forall i :: 0 <= i < |key| ==> !IsBlank(key[i]) && line[i] == key[i];
    var q := SkipWord(line, 0);
    assert SkipBlanks(line, 0) == 0;
    assert q >= |key|;
    assert line[0..q][0..|key|] == key;
  }

  // ---------------------------------------------------------------------------
  // values.yaml

  const IMAGE_KEY: string := "image:"
  const TAG_KEY: string := "tag:"

  // /^[^[:space:]#]/
  predicate TopLevel(line: string) {
    line != "" && !IsSpace(line[0]) && line[0] != '#'
  }

  // /^[[:space:]]+tag:/
  predicate TagLine(line: string) {
    var k := SkipSpaces(line, 0);
    k > 0 && At(line, k, TAG_KEY)
  }

  function Indent(line: string): string {
    line[..SkipSpaces(line, 0)]
  }

  // sub(/tag:.*/, "tag: \"" version "\""): the first occurrence stands behind the indentation.
  function WriteTag(v: string, line: string): string {
    Indent(line) + "tag: \"" + v + "\""
  }

  // Whether the line after this one is in the image block, when this line is printed as `out`.
  predicate StaysInImage(inImage: bool, out: string) {
    inImage && !(TopLevel(out) && !Starts(out, IMAGE_KEY))
  }

  // The second awk program of sync-chart-version.sh.
  function SyncValues(v: string, lines: File, inImage: bool): (out: File)
    ensures |out| == |lines|
  {
    if lines == [] then [] else
    var line := lines[0];
    var now := inImage || Starts(line, IMAGE_KEY);
    if now && TagLine(line) then
      [WriteTag(v, line)] + SyncValues(v, lines[1..], false)
    else
      [line] + SyncValues(v, lines[1..], StaysInImage(now, line))
  }

  // read_values_image_tag of verify-chart-version.sh.
  function ReadTag(lines: File, inImage: bool): string {
    if lines == [] then "" else
    var line := lines[0];
    if Starts(line, IMAGE_KEY) then ReadTag(lines[1..], true)
    else if inImage && TagLine(line) then Unquote(Field2(line))
    else ReadTag(lines[1..], StaysInImage(inImage, line))
  }

  // The indentation is all blanks, or blanks followed by other white space only, so that awk
  // takes what follows the tag for the second field.
  predicate CleanIndent(ws: string) {
    forall i, j :: 0 <= i < j < |ws| && IsBlank(ws[j]) ==> IsBlank(ws[i])
  }

  // The image block has a tag, and the first one is cleanly indented.
  predicate TagInImage(lines: File, inImage: bool) {
    lines != [] &&
    var line := lines[0];
    if Starts(line, IMAGE_KEY) then TagInImage(lines[1..], true)
    else if inImage && TagLine(line) then CleanIndent(Indent(line))
    else TagInImage(lines[1..], StaysInImage(inImage, line))
  }

  lemma {:induction false} ImageLineFacts(line: string)
    ensures Starts(line, IMAGE_KEY) ==> !TagLine(line) && StaysInImage(true, line)
  {
    StartsFirst(line, IMAGE_KEY);
  }

  // The written line: a tag line with the same indentation.
  lemma {:induction false} WriteTagFacts(v: string, line: string)
    requires TagLine(line)
    ensures TagLine(WriteTag(v, line)) && Indent(WriteTag(v, line)) == Indent(line)
    ensures !Starts(WriteTag(v, line), IMAGE_KEY) && !TopLevel(WriteTag(v, line)) && !Starts(line, IMAGE_KEY)
  {
    var k := SkipSpaces(line, 0);
    var out := WriteTag(v, line);
    var ws := Indent(line);
    assert out[k] == 't' && out[0] == ws[0] == line[0];
    assert At(out, 0, ws);
    SkipsExactly(out, 0, ws);
    assert out[k..k + 4] == TAG_KEY;
    assert IsSpace(line[0]) by { assert line[0..k][0] == line[0]; }
    StartsFirst(out, IMAGE_KEY);
    StartsFirst(line, IMAGE_KEY);
  }

  // What a clean indentation leaves in front of the tag belongs to one word with it.
  lemma {:induction false} TagWord(ws: string, a: nat)
    requires CleanIndent(ws) && a == SkipBlanks(ws, 0)
    ensures IsWord(ws[a..] + TAG_KEY)
  {
    hide SkipBlanks;
    var word := ws[a..] + TAG_KEY;
    forall i | 0 <= i < |word| ensures !IsBlank(word[i]) {
      if i < |ws| - a {
        assert word[i] == ws[a + i];
      } else {
        assert word[i] == TAG_KEY[i - (|ws| - a)];
      }
    }
  }

  // With a clean indentation the written version is the second field.
  lemma {:induction false} TagReadsBack(v: string, line: string)
    requires IsVersion(v) && CleanIndent(Indent(line))
    ensures Unquote(Field2(WriteTag(v, line))) == v
  {
    hide IsVersion, CleanIndent, Indent, IsWord, IsBlank, SkipBlanks, Field1, Field2, Unquote;
    var ws := Indent(line);
    var a := SkipBlanks(ws, 0);
    var word, quoted := ws[a..] + TAG_KEY, "\"" + v + "\"";
    UnquoteVersion(v);
    TagWord(ws, a);
    assert WriteTag(v, line) == ws[..a] + word + " " + quoted;
    TwoFields(ws[..a], word, quoted);
  }

  // The second field of a line whose indentation breaks up: it starts in the indentation or at
  // the tag, and ends at the colon of the tag at the latest.
  lemma {:induction false} BrokenIndent(out: string, n: nat, i: nat, j: nat)
    requires i < j < n && n + 4 < |out| && IsBlank(out[j]) && !IsBlank(out[i])
    requires out[n..n + 4] == TAG_KEY && IsBlank(out[n + 4])
    ensures exists c, d :: 0 <= c < d <= n + 4 && Field2(out) == out[c..d] && (c < n || (c == n && d == n + 4))
  {
    var a := SkipBlanks(out, 0);
    var b := SkipWord(out, a);
    var c := SkipBlanks(out, b);
    var d := SkipWord(out, c);
    assert out[n] == TAG_KEY[0] && out[n + 1] == TAG_KEY[1] && out[n + 2] == TAG_KEY[2] && out[n + 3] == TAG_KEY[3];
    assert a <= i && b <= j && c <= n && d <= n + 4;
  }

  // Otherwise the second field is the tag itself or a piece of the indentation, which no version is.
  lemma {:induction false} TagMisread(v: string, line: string)
    requires IsVersion(v) && TagLine(line) && !CleanIndent(Indent(line))
    ensures Unquote(Field2(WriteTag(v, line))) != v
  {
    hide Field2, Unquote, IsVersion;
    var ws, out := Indent(line), WriteTag(v, line);
    var n := |ws|;
    var i, j :| 0 <= i < j < n && IsBlank(ws[j]) && !IsBlank(ws[i]);
    assert forall k :: 0 <= k < n ==> out[k] == ws[k] && IsSpace(ws[k]);
    assert out[n..n + 4] == TAG_KEY && out[n + 4] == ' ';
    BrokenIndent(out, n, i, j);
    var c, d :| 0 <= c < d <= n + 4 && Field2(out) == out[c..d] && (c < n || (c == n && d == n + 4));
    VersionChars(v);
    NoQuoteIn(out, c, d, n);
    if c < n {
      assert out[c..d][0] == ws[c];
    } else {
      assert out[c..d][3] == TAG_KEY[3];
    }
  }

  lemma {:induction false} NoQuoteIn(out: string, c: nat, d: nat, n: nat)
    requires c < d <= |out| && c <= n && d <= n + 4 <= |out|
    requires forall i :: 0 <= i < n ==> IsSpace(out[i])
    requires out[n..n + 4] == TAG_KEY
    ensures Unquote(out[c..d]) == out[c..d]
  {
    forall i | c <= i < d ensures out[i] != '"' {
      assert i >= n ==> out[i] == TAG_KEY[i - n];
    }
  }

  // Both programs walk through the image block alike, so the reader meets the written tag.
  lemma {:induction false} ValuesReadBack(v: string, lines: File, inImage: bool)
    requires IsVersion(v) && TagInImage(lines, inImage)
    ensures ReadTag(SyncValues(v, lines, inImage), inImage) == v
    decreases |lines|
  {
    hide TagLine, WriteTag, Starts, TopLevel, CleanIndent, Field2, Unquote, IsVersion;
    var line := lines[0];
    ImageLineFacts(line);
    if !Starts(line, IMAGE_KEY) && inImage && TagLine(line) {
      WriteTagFacts(v, line);
      TagReadsBack(v, line);
      assert SyncValues(v, lines, inImage)[0] == WriteTag(v, line);
    } else {
      var now := Starts(line, IMAGE_KEY) || StaysInImage(inImage, line);
      ValuesReadBack(v, lines[1..], now);
      assert SyncValues(v, lines, inImage) == [line] + SyncValues(v, lines[1..], now);
      assert SyncValues(v, lines, inImage)[1..] == SyncValues(v, lines[1..], now);
    }
  }

  // Otherwise no version at all is read back.
  lemma {:induction false} ValuesMisread(v: string, lines: File, inImage: bool)
    requires IsVersion(v) && !TagInImage(lines, inImage)
    ensures ReadTag(SyncValues(v, lines, inImage), inImage) != v
    decreases |lines|
  {
    if lines == [] {
      VersionChars(v);
    } else {
      hide TagLine, WriteTag, Starts, TopLevel, CleanIndent, Field2, Unquote, IsVersion;
      var line := lines[0];
      ImageLineFacts(line);
      if !Starts(line, IMAGE_KEY) && inImage && TagLine(line) {
        WriteTagFacts(v, line);
        TagMisread(v, line);
        assert SyncValues(v, lines, inImage)[0] == WriteTag(v, line);
      } else {
        var now := Starts(line, IMAGE_KEY) || StaysInImage(inImage, line);
        ValuesMisread(v, lines[1..], now);
        assert SyncValues(v, lines, inImage) == [line] + SyncValues(v, lines[1..], now);
        assert SyncValues(v, lines, inImage)[1..] == SyncValues(v, lines[1..], now);
      }
    }
  }

  // A version is read back exactly from the files whose image block has a cleanly indented tag.
  lemma {:induction false} ValuesLens(v: string, lines: File)
    requires IsVersion(v)
    ensures ReadTag(SyncValues(v, lines, false), false) == v <==> TagInImage(lines, false)
  {
    if TagInImage(lines, false) {
      ValuesReadBack(v, lines, false);
    } else {
      ValuesMisread(v, lines, false);
    }
  }

  // The last version written counts, for every file.
  lemma {:induction false} ValuesSyncTwice(v: string, w: string, lines: File, inImage: bool)
    ensures SyncValues(w, SyncValues(v, lines, inImage), inImage) == SyncValues(w, lines, inImage)
    decreases |lines|
  {
    if lines != [] {
      hide TagLine, WriteTag, Starts, TopLevel;
      var line := lines[0];
      var out := SyncValues(v, lines, inImage);
      var now := inImage || Starts(line, IMAGE_KEY);
      if now && TagLine(line) {
        WriteTagFacts(v, line);
        RewriteTag(v, w, line);
        ImageLineFacts(line);
        ValuesSyncTwice(v, w, lines[1..], false);
        assert out[1..] == SyncValues(v, lines[1..], false);
      } else {
        ValuesSyncTwice(v, w, lines[1..], StaysInImage(now, line));
        assert out[1..] == SyncValues(v, lines[1..], StaysInImage(now, line));
      }
    }
  }

  lemma {:induction false} RewriteTag(v: string, w: string, line: string)
    requires TagLine(line)
    ensures WriteTag(w, WriteTag(v, line)) == WriteTag(w, line)
  {
    WriteTagFacts(v, line);
  }

  // A line behind which the image block goes on.
  predicate KeepsBlock(line: string) {
    !TagLine(line) && (TopLevel(line) ==> Starts(line, IMAGE_KEY))
  }

  // Line i stands in an image block, up to its first tag: an image line at or above it, with
  // neither a tag nor another top-level line in between. `inImage` says that a block is open
  // above the first line.
  ghost predicate InBlock(lines: File, inImage: bool, i: nat)
    requires i < |lines|
  {
    || (inImage && forall k :: 0 <= k < i ==> KeepsBlock(lines[k]))
    || exists j :: 0 <= j <= i && Starts(lines[j], IMAGE_KEY) && forall k :: j < k < i ==> KeepsBlock(lines[k])
  }

  lemma {:induction false} BlockStep(lines: File, inImage: bool, i: nat)
    requires 0 < i < |lines|
    ensures InBlock(lines, inImage, i)
       <==> InBlock(lines[1..], (inImage || Starts(lines[0], IMAGE_KEY)) && KeepsBlock(lines[0]), i - 1)
  {
    hide KeepsBlock, Starts;
    var rest := lines[1..];
    var now := (inImage || Starts(lines[0], IMAGE_KEY)) && KeepsBlock(lines[0]);
    assert forall k :: 0 <= k < |rest| ==> rest[k] == lines[k + 1];
    BlockOpener(lines[0]);
    if InBlock(lines, inImage, i) {
      if j :| 1 <= j <= i && Starts(lines[j], IMAGE_KEY) && forall k :: j < k < i ==> KeepsBlock(lines[k]) {
        assert Starts(rest[j - 1], IMAGE_KEY);
      } else {
        assert forall k :: 0 <= k < i - 1 ==> KeepsBlock(rest[k]);
      }
    }
    if InBlock(rest, now, i - 1) {
      if j :| 0 <= j <= i - 1 && Starts(rest[j], IMAGE_KEY) && forall k :: j < k < i - 1 ==> KeepsBlock(rest[k]) {
        assert Starts(lines[j + 1], IMAGE_KEY);
        assert forall k :: j + 1 < k < i ==> lines[k] == rest[k - 1];
      } else {
        assert forall k :: 1 <= k < i ==> lines[k] == rest[k - 1];
      }
    }
  }

  lemma {:induction false} BlockOpener(line: string)
    ensures Starts(line, IMAGE_KEY) ==> KeepsBlock(line)
  {
    ImageLineFacts(line);
  }

  // Exactly the first tag of each image block is written, and no other line.
  lemma {:induction false} ValuesUntouched(v: string, lines: File, inImage: bool, i: nat)
    requires i < |lines|
    ensures |SyncValues(v, lines, inImage)| == |lines|
    ensures SyncValues(v, lines, inImage)[i]
         == if InBlock(lines, inImage, i) && TagLine(lines[i]) then WriteTag(v, lines[i]) else lines[i]
    decreases |lines|
  {
    hide TagLine, WriteTag, TopLevel, Starts;
    if i > 0 {
      BlockStep(lines, inImage, i);
      hide InBlock;
      ValuesUntouched(v, lines[1..], (inImage || Starts(lines[0], IMAGE_KEY)) && KeepsBlock(lines[0]), i - 1);
    }
  }

  // The first tag of the first image block that has one.
  ghost predicate FirstTag(lines: File, inImage: bool, i: nat) {
    && i < |lines| && InBlock(lines, inImage, i) && TagLine(lines[i])
    && forall k :: 0 <= k < i ==> !(InBlock(lines, inImage, k) && TagLine(lines[k]))
  }

  // The condition under which a version is read back, told from the lines alone.
  lemma {:induction false} TagInImageMeans(lines: File, inImage: bool)
    ensures TagInImage(lines, inImage)
       <==> exists i: nat :: FirstTag(lines, inImage, i) && CleanIndent(Indent(lines[i]))
    decreases |lines|
  {
    hide TagLine, TopLevel, Starts, CleanIndent, Indent, InBlock;
    if lines != [] {
      var line, rest := lines[0], lines[1..];
      ImageLineFacts(line);
      FirstInBlock(lines, inImage);
      var now := (inImage || Starts(line, IMAGE_KEY)) && KeepsBlock(line);
      if inImage && TagLine(line) {
        assert forall i: nat :: FirstTag(lines, inImage, i) ==> i == 0;
        assert TagInImage(lines, inImage) ==> FirstTag(lines, inImage, 0);
      } else {
        TagInImageMeans(rest, now);
        forall i: nat ensures FirstTag(rest, now, i) <==> FirstTag(lines, inImage, i + 1) {
          FirstTagStep(lines, inImage, i);
        }
        assert forall i: nat :: FirstTag(lines, inImage, i) ==> i > 0 && FirstTag(rest, now, i - 1);
        if i: nat :| FirstTag(rest, now, i) && CleanIndent(Indent(rest[i])) {
          assert FirstTag(lines, inImage, i + 1) && lines[i + 1] == rest[i];
        }
        if i: nat :| FirstTag(lines, inImage, i) && CleanIndent(Indent(lines[i])) {
          assert FirstTag(rest, now, i - 1) && lines[i] == rest[i - 1];
        }
      }
    }
  }

  lemma {:induction false} FirstInBlock(lines: File, inImage: bool)
    requires lines != []
    ensures InBlock(lines, inImage, 0) <==> inImage || Starts(lines[0], IMAGE_KEY)
  {}

  lemma {:induction false} FirstTagStep(lines: File, inImage: bool, i: nat)
    requires lines != [] && !((inImage || Starts(lines[0], IMAGE_KEY)) && TagLine(lines[0]))
    ensures FirstTag(lines[1..], (inImage || Starts(lines[0], IMAGE_KEY)) && KeepsBlock(lines[0]), i)
       <==> FirstTag(lines, inImage, i + 1)
  {
    hide TagLine, TopLevel, Starts, InBlock, KeepsBlock;
    var rest, now := lines[1..], (inImage || Starts(lines[0], IMAGE_KEY)) && KeepsBlock(lines[0]);
    FirstInBlock(lines, inImage);
    forall k | 0 <= k < |rest|
      ensures rest[k] == lines[k + 1]
      ensures InBlock(rest, now, k) <==> InBlock(lines, inImage, k + 1)
    {
      BlockStep(lines, inImage, k + 1);
    }
    if FirstTag(rest, now, i) {
      forall k | 0 <= k < i + 1 ensures !(InBlock(lines, inImage, k) && TagLine(lines[k])) {
        assert k > 0 ==> lines[k] == rest[k - 1];
      }
    }
    if FirstTag(lines, inImage, i + 1) {
      forall k | 0 <= k < i ensures !(InBlock(rest, now, k) && TagLine(rest[k])) {
        assert rest[k] == lines[k + 1];
      }
    }
  }

  // The reader takes the second field of that same line.
  lemma {:induction false} ReadTagMeans(lines: File, inImage: bool, i: nat)
    requires FirstTag(lines, inImage, i)
    ensures ReadTag(lines, inImage) == Unquote(Field2(lines[i]))
    decreases i
  {
    hide TagLine, TopLevel, Starts, InBlock, Field2, Unquote, StaysInImage, KeepsBlock;
    FirstInBlock(lines, inImage);
    ImageLineFacts(lines[0]);
    if i > 0 {
      var now := (inImage || Starts(lines[0], IMAGE_KEY)) && KeepsBlock(lines[0]);
      FirstTagStep(lines, inImage, i - 1);
      ReadTagMeans(lines[1..], now, i - 1);
      ReadTagStep(lines, inImage);
    }
  }

  lemma {:induction false} ReadTagStep(lines: File, inImage: bool)
    requires lines != [] && !((inImage || Starts(lines[0], IMAGE_KEY)) && TagLine(lines[0]))
    ensures ReadTag(lines, inImage)
         == ReadTag(lines[1..], (inImage || Starts(lines[0], IMAGE_KEY)) && KeepsBlock(lines[0]))
  {
    hide TagLine, TopLevel, Starts, Field2, Unquote;
    ImageLineFacts(lines[0]);
  }

  // ---------------------------------------------------------------------------
  // The same, told from the text of the lines

  ghost predicate IsTag(line: string, ws: string, rest: string) {
    ws != "" && AllSpace(ws) && line == ws + "tag:" + rest
  }

  lemma {:induction false} IsTagLine(line: string, ws: string, rest: string)
    requires IsTag(line, ws, rest)
    ensures TagLine(line) && Indent(line) == ws
  {
    assert At(line, 0, ws) && line[|ws|] == 't';
    SkipsExactly(line, 0, ws);
    assert line[|ws|..|ws| + 4] == "tag:";
  }

  lemma {:induction false} TagLineIs(line: string)
    requires TagLine(line)
    ensures IsTag(line, Indent(line), line[|Indent(line)| + 4..])
  {
    var k := |Indent(line)|;
    assert line == line[..k] + line[k..k + 4] + line[k + 4..];
    assert line[..k] == line[0..k];
  }

  // A line that leaves an image block open: no tag, and an image line, a comment, an empty line
  // or an indented one.
  ghost predicate GoesOn(line: string) {
    && (forall ws, rest :: !IsTag(line, ws, rest))
    && (line == "" || line[0] in [' ', '\t', '\n', '\r', 11 as char, 12 as char, '#'] || At(line, 0, "image:"))
  }

  lemma {:induction false} GoesOnIff(line: string)
    ensures GoesOn(line) <==> KeepsBlock(line)
    ensures At(line, 0, "image:") <==> Starts(line, IMAGE_KEY)
  {
    if line != "" {
      SpaceIs(line[0]);
    }
    hide IsSpace;
    TagIff(line);
  }

  lemma {:induction false} TagIff(line: string)
    ensures TagLine(line) <==> exists ws, rest :: IsTag(line, ws, rest)
  {
    hide TagLine, IsTag, Indent;
    if TagLine(line) {
      TagLineIs(line);
    }
    forall ws, rest | IsTag(line, ws, rest) ensures TagLine(line) {
      IsTagLine(line, ws, rest);
    }
  }

  // Line i stands in an image block, up to its first tag.
  ghost predicate Block(lines: File, i: nat)
    requires i < |lines|
  {
    exists j :: 0 <= j <= i && At(lines[j], 0, "image:") && forall k :: j < k < i ==> GoesOn(lines[k])
  }

  lemma {:induction false} BlockIff(lines: File, i: nat)
    requires i < |lines|
    ensures Block(lines, i) <==> InBlock(lines, false, i)
  {
    hide GoesOn, KeepsBlock, At, Starts, IMAGE_KEY;
    forall k | 0 <= k < |lines|
      ensures GoesOn(lines[k]) <==> KeepsBlock(lines[k])
      ensures At(lines[k], 0, "image:") <==> Starts(lines[k], IMAGE_KEY)
    {
      GoesOnIff(lines[k]);
    }
    if j :| 0 <= j <= i && At(lines[j], 0, "image:") && forall k :: j < k < i ==> GoesOn(lines[k]) {
      assert Starts(lines[j], IMAGE_KEY);
    }
    if j :| 0 <= j <= i && Starts(lines[j], IMAGE_KEY) && forall k :: j < k < i ==> KeepsBlock(lines[k]) {
      assert At(lines[j], 0, "image:");
    }
  }

  /**
   * What sync-chart-version.sh writes into values.yaml: the first tag of each image block keeps its
   * indentation and names the version in quotes, and every other line stays.
   */
  lemma {:induction false} ValuesWritten(v: string, lines: File, i: nat)
    requires i < |lines|
    ensures |SyncValues(v, lines, false)| == |lines|
    ensures forall ws, rest :: Block(lines, i) && IsTag(lines[i], ws, rest) ==>
              SyncValues(v, lines, false)[i] == ws + "tag: \"" + v + "\""
    ensures (forall ws, rest :: !IsTag(lines[i], ws, rest)) || !Block(lines, i) ==>
              SyncValues(v, lines, false)[i] == lines[i]
  {
    hide IsTag, Block, TagLine, InBlock, SyncValues, Indent;
    ValuesUntouched(v, lines, false, i);
    BlockIff(lines, i);
    TagIff(lines[i]);
    forall ws, rest | Block(lines, i) && IsTag(lines[i], ws, rest)
      ensures SyncValues(v, lines, false)[i] == ws + "tag: \"" + v + "\""
    {
      IsTagLine(lines[i], ws, rest);
    }
  }

  // What verify-chart-version.sh reads: the word behind the first tag in an image block, without
  // its quotes.
  lemma {:induction false} TagRead(lines: File, i: nat, ws: string, gap: string, w: string, rest: string)
    requires i < |lines| && Block(lines, i) && ws != "" && Gap(ws) && gap != "" && Gap(gap) && Word(w)
    requires lines[i] == ws + "tag:" + gap + w + rest && (rest != "" ==> rest[0] in " \t")
    requires forall k :: 0 <= k < i && Block(lines, k) ==> forall ws, rest :: !IsTag(lines[k], ws, rest)
    ensures ReadTag(lines, false) == Unquote(w)
  {
    hide Block, TagLine, InBlock, ReadTag, Field1, Field2, Unquote;
    assert lines[i] == ws + "tag:" + (gap + w + rest);
    GapIsSpace(ws);
    assert IsTag(lines[i], ws, gap + w + rest);
    FieldsAre(lines[i], ws, "tag:", gap, w, rest);
    forall k | 0 <= k <= i ensures Block(lines, k) <==> InBlock(lines, false, k) {
      BlockIff(lines, k);
    }
    forall k | 0 <= k <= i ensures TagLine(lines[k]) <==> exists ws, rest :: IsTag(lines[k], ws, rest) {
      TagIff(lines[k]);
    }
    hide IsTag;
    ReadTagMeans(lines, false, i);
  }

  lemma {:induction false} GapIsSpace(ws: string)
    requires Gap(ws)
    ensures AllSpace(ws)
  {}

  // ---------------------------------------------------------------------------
  // The Makefile, and the scripts as a whole

  const MAKE_KEY: string := "VERSION := "
  const MAKE_SEPARATOR: string := " := "

  // The text of s from pos to the next separator.
  function UpToSeparator(s: string, pos: nat): string
    requires pos <= |s|
    decreases |s| - pos
  {
    if pos == |s| || Starts(s[pos..], MAKE_SEPARATOR) then "" else [s[pos]] + UpToSeparator(s, pos + 1)
  }

  // read_makefile_version, from line i on
  function ReadMakefile(lines: File, i: nat): string
    requires i <= |lines|
    decreases |lines| - i
  {
    if i == |lines| then ""
    else if Starts(lines[i], MAKE_KEY) then UpToSeparator(lines[i], |MAKE_KEY|)
    else ReadMakefile(lines, i + 1)
  }

  lemma {:induction false} UpToSeparatorIs(s: string, pos: nat, v: string)
    requires At(s, pos, v)
    requires forall i :: pos <= i < pos + |v| ==> !At(s, i, " := ")
    requires pos + |v| == |s| || At(s, pos + |v|, " := ")
    ensures UpToSeparator(s, pos) == v
    decreases |v|
  {
    SeparatorAt(s, pos);
    if v != "" {
      assert s[pos] == v[0];
      assert At(s, pos + 1, v[1..]);
      UpToSeparatorIs(s, pos + 1, v[1..]);
    }
  }

  lemma {:induction false} SeparatorAt(s: string, pos: nat)
    requires pos <= |s|
    ensures Starts(s[pos..], MAKE_SEPARATOR) <==> At(s, pos, " := ")
  {
    if pos + 4 <= |s| {
      assert s[pos..][0..4] == s[pos..pos + 4];
    }
  }

  lemma {:induction false} ShiftedAt(front: string, s: string, k: nat, t: string)
    ensures At(front + s, |front| + k, t) <==> At(s, k, t)
  {
    if k + |t| <= |s| {
      assert (front + s)[|front| + k..|front| + k + |t|] == s[k..k + |t|];
    }
  }

  // The first line that starts with the key names the version, up to the next separator.
  lemma {:induction false} MakefileReads(pre: File, v: string, tail: string, post: File, i: nat)
    requires forall k :: 0 <= k < |pre| ==> !At(pre[k], 0, "VERSION := ")
    requires forall k :: 0 <= k < |v| ==> !At(v + tail, k, " := ")
    requires (tail == "" || At(tail, 0, " := ")) && i <= |pre|
    ensures ReadMakefile(pre + ["VERSION := " + v + tail] + post, i) == v
    decreases |pre| - i
  {
    var lines := pre + ["VERSION := " + v + tail] + post;
    if i < |pre| {
      assert lines[i] == pre[i];
      MakefileReads(pre, v, tail, post, i + 1);
    } else {
      var line := "VERSION := " + v + tail;
      assert lines[i] == line;
      assert line[0..11] == MAKE_KEY;
      assert line[11..11 + |v|] == v;
      forall k | 11 <= k < 11 + |v| ensures !At(line, k, " := ") {
        ShiftedAt("VERSION := ", v + tail, k - 11, " := ");
        assert line == "VERSION := " + (v + tail);
      }
      assert tail != "" ==> line[11 + |v|..15 + |v|] == tail[0..4];
      UpToSeparatorIs(line, 11, v);
    }
  }

  lemma {:induction false} MakefileSilent(lines: File, i: nat)
    requires i <= |lines| && forall k :: 0 <= k < |lines| ==> !At(lines[k], 0, "VERSION := ")
    ensures ReadMakefile(lines, i) == ""
    decreases |lines| - i
  {
    if i < |lines| {
      MakefileSilent(lines, i + 1);
    }
  }

  // What verify-chart-version.sh accepts; without an argument it expects the Makefile's version.
  predicate Aligned(makefile: File, chart: File, values: File, arg: string) {
    var make := ReadMakefile(makefile, 0);
    var expected := StripV(if arg == "" then make else arg);
    && make == expected
    && ReadField(VERSION_KEY, chart, 0) == expected
    && ReadField(APP_VERSION_KEY, chart, 0) == expected
    && ReadTag(values, false) == expected
  }

  // What sync-chart-version.sh accepts.
  predicate Accepted(arg: string) {
    arg != "" && IsVersion(StripV(arg))
  }

  class Repository {
    var makefile: File
    var chart: File
    var values: File

    constructor (makefile: File, chart: File, values: File)
      ensures this.makefile == makefile && this.chart == chart && this.values == values
    {
      this.makefile, this.chart, this.values := makefile, chart, values;
    }

    // sync-chart-version.sh: both files are replaced, or none is.
    method Sync(arg: string) returns (ok: bool)
      modifies this`chart, this`values
      ensures ok <==> Accepted(arg)
      ensures chart == if ok then SyncChart(StripV(arg), old(chart)) else old(chart)
      ensures values == if ok then SyncValues(StripV(arg), old(values), false) else old(values)
    {
      if arg == "" {
        return false;
      }
      var version := StripV(arg);
      if !IsVersion(version) {
        return false;
      }
      chart := RewriteChart(version, chart);
      values := RewriteValues(version, values);
      return true;
    }

    // verify-chart-version.sh: every check is made, and any mismatch fails.
    method Verify(arg: string) returns (ok: bool)
      ensures ok <==> Aligned(makefile, chart, values, arg)
    {
      var make := ReadMakefile(makefile, 0);
      var expected := StripV(if arg == "" then make else arg);
      var version := ReadChartField(VERSION_KEY, chart);
      var appVersion := ReadChartField(APP_VERSION_KEY, chart);
      var tag := ReadImageTag(values);
      var fail := false;
      if make != expected {
        fail := true;
      }
      if version != expected {
        fail := true;
      }
      if appVersion != expected {
        fail := true;
      }
      if tag != expected {
        fail := true;
      }
      return !fail;
    }
  }

  method RewriteChart(version: string, lines: File) returns (out: File)
    ensures out == SyncChart(version, lines)
  {
    out := [];
    for i := 0 to |lines|
      invariant |out| == i && forall j :: 0 <= j < i ==> out[j] == SyncChartLine(version, lines[j])
    {
      var line := lines[i];
      if Starts(line, VERSION_KEY) {
        out := out + ["version: " + version];
      } else if Starts(line, APP_VERSION_KEY) {
        out := out + ["appVersion: \"" + version + "\""];
      } else {
        out := out + [line];
      }
    }
  }

  method RewriteValues(version: string, lines: File) returns (out: File)
    ensures out == SyncValues(version, lines, false)
  {
    hide TagLine, WriteTag, TopLevel, Starts, SyncValues;
    out := [];
    var inImage := false;
    assert lines[0..] == lines;
    for i := 0 to |lines|
      invariant out + SyncValues(version, lines[i..], inImage) == SyncValues(version, lines, false)
    {
      var line := lines[i];
      SyncStep(version, lines, i, inImage, inImage || Starts(line, IMAGE_KEY));
      ghost var rest := SyncValues(version, lines[i..], inImage);
      if Starts(line, IMAGE_KEY) {
        inImage := true;
      }
      if inImage && TagLine(line) {
        WriteTagFacts(version, line);
        line := WriteTag(version, line);
        inImage := false;
      }
      if TopLevel(line) && !Starts(line, IMAGE_KEY) {
        inImage := false;
      }
      assert rest == [line] + SyncValues(version, lines[i + 1..], inImage);
      out := out + [line];
    }
    assert SyncValues(version, lines[|lines|..], inImage) == [];
  }

  // One turn of the loop.
  lemma {:induction false} SyncStep(v: string, lines: File, i: nat, inImage: bool, now: bool)
    requires i < |lines| && now == (inImage || Starts(lines[i], IMAGE_KEY))
    ensures now && TagLine(lines[i]) ==>
              SyncValues(v, lines[i..], inImage) == [WriteTag(v, lines[i])] + SyncValues(v, lines[i + 1..], false)
    ensures !(now && TagLine(lines[i])) ==>
              SyncValues(v, lines[i..], inImage) == [lines[i]] + SyncValues(v, lines[i + 1..], StaysInImage(now, lines[i]))
  {
    hide TagLine, WriteTag, StaysInImage, Starts;
    assert lines[i..][0] == lines[i] && lines[i..][1..] == lines[i + 1..];
  }

  method ReadChartField(key: string, lines: File) returns (value: string)
    ensures value == ReadField(key, lines, 0)
  {
    for i := 0 to |lines|
      invariant ReadField(key, lines, i) == ReadField(key, lines, 0)
    {
      if Field1(lines[i]) == key {
        return Unquote(Field2(lines[i]));
      }
    }
    return "";
  }

  method ReadImageTag(lines: File) returns (tag: string)
    ensures tag == ReadTag(lines, false)
  {
    hide TagLine, TopLevel, Starts, Field2, Unquote;
    var inImage := false;
    for i := 0 to |lines|
      invariant ReadTag(lines[i..], inImage) == ReadTag(lines, false)
    {
      var line := lines[i];
      assert lines[i..][0] == line && lines[i..][1..] == lines[i + 1..];
      if Starts(line, IMAGE_KEY) {
        inImage := true;
        continue;
      }
      if inImage && TagLine(line) {
        return Unquote(Field2(line));
      }
      if TopLevel(line) && !Starts(line, IMAGE_KEY) {
        inImage := false;
      }
    }
    assert lines[|lines|..] == [];
    return "";
  }

  /**
   * After a sync with an accepted version, verifying succeeds exactly when the Makefile names that
   * version and so does the argument, if there is one; for all files that hold the fields where
   * the writer looks for them.
   */
  lemma {:induction false} SyncThenVerify(makefile: File, chart: File, values: File, arg: string, given: string)
    requires Accepted(arg)
    requires FieldAtColumn0(VERSION_KEY, chart, 0) && FieldAtColumn0(APP_VERSION_KEY, chart, 0) && TagInImage(values, false)
    ensures var v := StripV(arg);
            Aligned(makefile, SyncChart(v, chart), SyncValues(v, values, false), given)
            <==> ReadMakefile(makefile, 0) == v && (given == "" || StripV(given) == v)
  {
    hide ReadField, ReadTag, ReadMakefile, FieldAtColumn0, TagInImage;
    var v := StripV(arg);
    VersionIsBare(v);
    hide IsVersion;
    FieldReadsBack(v, VERSION_KEY, chart, 0);
    FieldReadsBack(v, APP_VERSION_KEY, chart, 0);
    ValuesLens(v, values);
  }

  // The same for the text of the Makefile: verifying after a sync succeeds exactly when its first
  // version line names the version.
  lemma {:induction false} SyncThenVerifyText(pre: File, w: string, post: File, chart: File, values: File, arg: string, given: string)
    requires Accepted(arg)
    requires FieldAtColumn0(VERSION_KEY, chart, 0) && FieldAtColumn0(APP_VERSION_KEY, chart, 0) && TagInImage(values, false)
    requires forall k :: 0 <= k < |pre| ==> !At(pre[k], 0, "VERSION := ")
    requires forall k :: 0 <= k < |w| ==> !At(w, k, " := ")
    ensures var v := StripV(arg);
            Aligned(pre + ["VERSION := " + w] + post, SyncChart(v, chart), SyncValues(v, values, false), given)
            <==> w == v && (given == "" || given == v || given == "v" + v)
  {
    hide IsVersion, FieldAtColumn0, TagInImage, Aligned, ReadMakefile;
    assert "VERSION := " + w + "" == "VERSION := " + w && w + "" == w;
    MakefileReads(pre, w, "", post, 0);
    SyncThenVerify(pre + ["VERSION := " + w] + post, chart, values, arg, given);
    ArgumentIs(StripV(arg), given);
  }

  lemma {:induction false} ArgumentIs(v: string, given: string)
    ensures StripV(given) == v ==> given == v || given == "v" + v
    ensures given == "v" + v ==> StripV(given) == v
    ensures IsVersion(v) && given == v ==> StripV(given) == v
  {
    if IsVersion(v) {
      VersionIsBare(v);
    }
    StripVIs(v);
  }

  lemma {:induction false} VersionIsBare(v: string)
    requires IsVersion(v)
    ensures StripV(v) == v
  {
    var a := NumberEnd(v, 0).value;
    assert v[0] == v[0..a][0];
  }

  // For all other files there is a version that is not verified after its own sync, whatever
  // the Makefile says.
  lemma {:induction false} SyncThenVerifyFails(chart: File, values: File)
    requires !(FieldAtColumn0(VERSION_KEY, chart, 0) && FieldAtColumn0(APP_VERSION_KEY, chart, 0) && TagInImage(values, false))
    ensures exists v :: IsVersion(v) && forall makefile ::
              !Aligned(makefile, SyncChart(v, chart), SyncValues(v, values, false), v)
  {
    hide ReadField, ReadTag, ReadMakefile, FieldAtColumn0, TagInImage, IsVersion;
    TwoVersions();
    var v := if ReadField(VERSION_KEY, SyncChart("0.0.0", chart), 0) == "0.0.0"
                && ReadField(APP_VERSION_KEY, SyncChart("0.0.0", chart), 0) == "0.0.0" then "0.0.1" else "0.0.0";
    ValuesLens(v, values);
    ValuesLens("0.0.0", values);
    if !FieldAtColumn0(VERSION_KEY, chart, 0) {
      FieldStuck("0.0.0", "0.0.1", VERSION_KEY, chart, 0);
    }
    if !FieldAtColumn0(APP_VERSION_KEY, chart, 0) {
      FieldStuck("0.0.0", "0.0.1", APP_VERSION_KEY, chart, 0);
    }
    assert StripV(v) == v;
    assert IsVersion(v) && forall makefile :: !Aligned(makefile, SyncChart(v, chart), SyncValues(v, values, false), v);
  }
}
