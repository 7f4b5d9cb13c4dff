/** The input classifier of main.js: the voice-note heuristic, the staging extension for the
    converter, and the sanitised base name of the downloaded MP3. */
module Classifier {
  import opened JsString

  /** A selected file, as far as the classifier looks at it: its name and declared MIME type
      (the empty string when the browser does not know the type). */
  datatype AudioFile = AudioFile(name: string, mimeType: string)

  // ---------------------------------------------------------------------------------------
  // Case-insensitive matching, stated character by character

  /** `w` matches `s` at index `i` once each character of `s` is folded to lower case. */
  predicate MatchesIgnoringCaseAt(s: string, w: string, i: int) {
    0 <= i && i + |w| <= |s| && forall k :: 0 <= k < |w| ==> LowerChar(s[i + k]) == w[k]
  }

  /** `s` ends in `w`, ignoring case. */
  predicate EndsWithIgnoringCase(s: string, w: string) {
    |w| <= |s| && MatchesIgnoringCaseAt(s, w, |s| - |w|)
  }

  /** `s` contains `w` somewhere, ignoring case. */
  predicate ContainsIgnoringCase(s: string, w: string) {
    exists i :: 0 <= i <= |s| && MatchesIgnoringCaseAt(s, w, i)
  }

  lemma OccursInLowerIff(s: string, w: string, i: int)
    ensures OccursAt(ToLowerCase(s), w, i) <==> MatchesIgnoringCaseAt(s, w, i)
  {
    var l := ToLowerCase(s);
    if 0 <= i && i + |w| <= |s| {
      if MatchesIgnoringCaseAt(s, w, i) {
        assert l[i..i + |w|] == w;
      }
      if OccursAt(l, w, i) {
        forall k | 0 <= k < |w| ensures LowerChar(s[i + k]) == w[k] {
          assert l[i..i + |w|][k] == l[i + k];
        }
      }
    }
  }

  /** `toLowerCase()` followed by `includes(w)` is a case-insensitive search for `w`. */
  lemma IncludesInLowerIff(s: string, w: string)
    ensures Includes(ToLowerCase(s), w) <==> ContainsIgnoringCase(s, w)
  {
    IncludesIffOccurs(ToLowerCase(s), w);
    forall i ensures OccursAt(ToLowerCase(s), w, i) <==> MatchesIgnoringCaseAt(s, w, i) {
      OccursInLowerIff(s, w, i);
    }
  }

  /** `toLowerCase()` followed by `endsWith(w)` is a case-insensitive suffix test. */
  lemma EndsWithInLowerIff(s: string, w: string)
    ensures EndsWith(ToLowerCase(s), w) <==> EndsWithIgnoringCase(s, w)
  {
    var l := ToLowerCase(s);
    OccursInLowerIff(s, w, |s| - |w|);
    assert EndsWith(l, w) <==> OccursAt(l, w, |s| - |w|);
  }

  // ---------------------------------------------------------------------------------------
  // isProbablyWhatsAppVoice

  const VoiceNameSuffixes: set<string> := {".opus", ".ogg", ".m4a"}
  const VoiceTypeWords: set<string> := {"ogg", "opus", "mp4", "aac", "audio"}

  /** The advisory heuristic: a voice-note file name suffix, or a MIME type that mentions an
      audio container or codec, both after lower-casing. */
  predicate IsProbablyWhatsAppVoice(f: AudioFile) {
    var name := ToLowerCase(f.name);
    var t := ToLowerCase(f.mimeType);
    var nameOk := EndsWith(name, ".opus") || EndsWith(name, ".ogg") || EndsWith(name, ".m4a");
    var typeOk := Includes(t, "ogg") || Includes(t, "opus") || Includes(t, "mp4")
      || Includes(t, "aac") || Includes(t, "audio");
    nameOk || typeOk
  }

  /** The heuristic holds exactly when the name ends in one of the voice-note suffixes or the
      MIME type contains one of the audio words, ignoring case in both. */
  lemma VoiceHeuristicExactly(f: AudioFile)
    ensures IsProbablyWhatsAppVoice(f) <==>
      (exists x :: x in VoiceNameSuffixes && EndsWithIgnoringCase(f.name, x))
      || (exists w :: w in VoiceTypeWords && ContainsIgnoringCase(f.mimeType, w))
  {
    EndsWithInLowerIff(f.name, ".opus");
    EndsWithInLowerIff(f.name, ".ogg");
    EndsWithInLowerIff(f.name, ".m4a");
    IncludesInLowerIff(f.mimeType, "ogg");
    IncludesInLowerIff(f.mimeType, "opus");
    IncludesInLowerIff(f.mimeType, "mp4");
    IncludesInLowerIff(f.mimeType, "aac");
    IncludesInLowerIff(f.mimeType, "audio");
  }

  /** A voice-note suffix is recognised in any case, whatever the MIME type. */
  lemma VoiceBySuffixExample(f: AudioFile)
    requires f.name == "Voice.M4A"
    ensures IsProbablyWhatsAppVoice(f)
  {
    assert ToLowerCase(f.name) == "voice.m4a";
    assert "voice.m4a"[5..] == ".m4a";
  }

  /** The MIME type alone suffices, and it is over-inclusive: a video MP4 passes too. */
  lemma VoiceByTypeExample(f: AudioFile)
    requires f.mimeType == "video/MP4"
    ensures IsProbablyWhatsAppVoice(f)
  {
    var t := ToLowerCase(f.mimeType);
    assert t == "video/mp4";
    assert OccursAt(t, "mp4", 6);
    OccursImpliesIncludes(t, "mp4", 6);
  }

  /** A text file with an unknown type is not taken for a voice note. */
  lemma NotVoiceExample(f: AudioFile)
    requires f.name == "notes.txt" && f.mimeType == ""
    ensures !IsProbablyWhatsAppVoice(f)
  {
    var n := ToLowerCase(f.name);
    assert n == "notes.txt";
    assert n[4..] != ".opus" && n[5..] != ".ogg" && n[5..] != ".m4a" by {
      assert n[4] == 's' && n[5] == '.' && n[6] == 't';
    }
  }

  // ---------------------------------------------------------------------------------------
  // inferInputExt

  /** The extensions the converter's staging file may carry. */
  const AllowedExts: set<string> := {"opus", "ogg", "m4a", "aac", "wav", "mp3", "audio"}

  /** `(name.split(".").pop() || "").trim()`. `pop` of a split always yields a string, so the
      `|| ""` never changes it. */
  function NameExt(name: string): (r: string)
    ensures '.' !in r
  {
    AfterLastDotHasNoDot(name);
    TrimSpec(AfterLastDot(name));
    Trim(AfterLastDot(name))
  }

  /** The name offers no extension: the candidate is empty or is the whole (lower-cased) name. */
  predicate LacksNameExt(name: string) {
    NameExt(name) == "" || NameExt(name) == name
  }

  /** The extension derived from the lower-cased MIME type; the first word that occurs wins. */
  function MimeExt(t: string): (r: string)
    ensures r in {"ogg", "opus", "m4a", "aac", "audio"}
  {
    if Includes(t, "ogg") then "ogg"
    else if Includes(t, "opus") then "opus"
    else if Includes(t, "mp4") then "m4a"
    else if Includes(t, "aac") then "aac"
    else "audio"
  }

  /** Normalises `oga` to `ogg` and `mp4` to `m4a`. */
  function NormalizeExt(ext: string): (r: string)
    ensures ext == "oga" ==> r == "ogg"
    ensures ext == "mp4" ==> r == "m4a"
    ensures ext != "oga" && ext != "mp4" ==> r == ext
    ensures r != "oga" && r != "mp4"
  {
    if ext == "oga" then "ogg" else if ext == "mp4" then "m4a" else ext
  }

  /** The candidate `e`, normalised, or `audio` when that is not on the whitelist. */
  function Whitelisted(e: string): string {
    if NormalizeExt(e) in AllowedExts then NormalizeExt(e) else "audio"
  }

  /** The extension of the converter's staging file `input.<ext>`. */
  function InferInputExt(f: AudioFile): (r: string)
    ensures r in AllowedExts
  {
    var name := ToLowerCase(f.name);
    var t := ToLowerCase(f.mimeType);
    Whitelisted(if LacksNameExt(name) then MimeExt(t) else NameExt(name))
  }

  /** With no extension in the name, the MIME type decides in the order ogg, opus, mp4 (as
      m4a), aac, ignoring case, and anything else gives `audio`. */
  lemma InferFromMimeType(f: AudioFile)
    requires LacksNameExt(ToLowerCase(f.name))
    ensures var r := InferInputExt(f); var t := f.mimeType;
      && (ContainsIgnoringCase(t, "ogg") ==> r == "ogg")
      && ((!ContainsIgnoringCase(t, "ogg") && ContainsIgnoringCase(t, "opus")) ==> r == "opus")
      && ((!ContainsIgnoringCase(t, "ogg") && !ContainsIgnoringCase(t, "opus")
           && ContainsIgnoringCase(t, "mp4")) ==> r == "m4a")
      && ((!ContainsIgnoringCase(t, "ogg") && !ContainsIgnoringCase(t, "opus")
           && !ContainsIgnoringCase(t, "mp4") && ContainsIgnoringCase(t, "aac")) ==> r == "aac")
      && ((!ContainsIgnoringCase(t, "ogg") && !ContainsIgnoringCase(t, "opus")
           && !ContainsIgnoringCase(t, "mp4") && !ContainsIgnoringCase(t, "aac")) ==> r == "audio")
  {
    IncludesInLowerIff(f.mimeType, "ogg");
    IncludesInLowerIff(f.mimeType, "opus");
    IncludesInLowerIff(f.mimeType, "mp4");
    IncludesInLowerIff(f.mimeType, "aac");
  }

  /** When the name offers an extension, the MIME type plays no part: the extension is
      normalised and kept when it is on the whitelist, and otherwise collapses to `audio`. */
  lemma InferFromName(f: AudioFile, otherType: string)
    requires !LacksNameExt(ToLowerCase(f.name))
    ensures InferInputExt(f) == Whitelisted(NameExt(ToLowerCase(f.name)))
    ensures InferInputExt(f) == InferInputExt(AudioFile(f.name, otherType))
  {
  }

  /** Only the lower-cased name and type matter. */
  lemma InferIgnoresCase(f: AudioFile, g: AudioFile)
    requires ToLowerCase(f.name) == ToLowerCase(g.name)
    requires ToLowerCase(f.mimeType) == ToLowerCase(g.mimeType)
    ensures InferInputExt(f) == InferInputExt(g)
  {
  }

  /** An extension word: non-empty, lower-case letters and digits only. */
  predicate IsPlainExt(e: string) {
    e != [] && forall k :: 0 <= k < |e| ==> ('a' <= e[k] <= 'z') || ('0' <= e[k] <= '9')
  }

  lemma AllowedExtsArePlain(e: string)
    requires e in AllowedExts
    ensures IsPlainExt(e) && NormalizeExt(e) == e
  {
    if e == "opus" { assert e == ['o', 'p', 'u', 's']; }
    else if e == "ogg" { assert e == ['o', 'g', 'g']; }
    else if e == "m4a" { assert e == ['m', '4', 'a']; }
    else if e == "aac" { assert e == ['a', 'a', 'c']; }
    else if e == "wav" { assert e == ['w', 'a', 'v']; }
    else if e == "mp3" { assert e == ['m', 'p', '3']; }
    else { assert e == ['a', 'u', 'd', 'i', 'o']; }
  }

  /** A name `p.e` whose last segment is an extension word offers exactly that extension. */
  lemma {:induction false} NameExtOfDotted(p: string, e: string)
    requires IsPlainExt(e)
    ensures NameExt(p + "." + e) == e && !LacksNameExt(p + "." + e)
  {
    assert '.' !in e by {
      forall k | 0 <= k < |e| ensures e[k] != '.' { }
    }
    AfterLastDotOfDotted(p, e);
    TrimOfTrimmed(e);
  }

  /** A staging file `input.<e>` with a whitelisted `e` is classified as `e`, whatever the
      MIME type. */
  lemma {:induction false} ClassifyStagingName(e: string, t: string)
    requires e in AllowedExts
    ensures InferInputExt(AudioFile("input." + e, t)) == e
  {
    var n := "input." + e;
    AllowedExtsArePlain(e);
    assert NoUpper(e);
    LowerCaseOfLower(e);
    LowerCaseConcat("input.", e);
    assert ToLowerCase("input.") == "input.";
    assert "input" + "." + e == n;
    NameExtOfDotted("input", e);
    assert NameExt(ToLowerCase(n)) == e;
  }

  /** Naming the staging file `input.<ext>` and classifying that name again gives back `ext`. */
  lemma StagingNameRoundTrip(f: AudioFile, t: string)
    ensures InferInputExt(AudioFile("input." + InferInputExt(f), t)) == InferInputExt(f)
  {
    ClassifyStagingName(InferInputExt(f), t);
  }

  /** A name extension is normalised and matched without regard to case. */
  lemma InferNormalisesOgaExample(f: AudioFile)
    requires f.name == "VOICE.OGA"
    ensures InferInputExt(f) == "ogg"
  {
    assert ToLowerCase(f.name) == "voice" + "." + "oga";
    NameExtOfDotted("voice", "oga");
  }

  lemma InferNormalisesMp4Example(f: AudioFile)
    requires f.name == "clip.Mp4"
    ensures InferInputExt(f) == "m4a"
  {
    assert ToLowerCase(f.name) == "clip" + "." + "mp4";
    NameExtOfDotted("clip", "mp4");
  }

  /** A name ending in `.e`, where `e` lower-cases to an extension word, is classified by that
      word alone: normalised, whitelisted, whatever precedes the dot and whatever the type. */
  lemma InferDottedName(p: string, e: string, t: string)
    requires IsPlainExt(ToLowerCase(e))
    ensures InferInputExt(AudioFile(p + "." + e, t)) == Whitelisted(ToLowerCase(e))
  {
    LowerCaseConcat(p + ".", e);
    LowerCaseConcat(p, ".");
    assert ToLowerCase(".") == ".";
    NameExtOfDotted(ToLowerCase(p), ToLowerCase(e));
  }

  /** `oga` and `mp4`, in any case, become `ogg` and `m4a`, whatever the rest of the name. */
  lemma InferNormalisesDotted(p: string, e: string, t: string)
    requires ToLowerCase(e) == "oga" || ToLowerCase(e) == "mp4"
    ensures ToLowerCase(e) == "oga" ==> InferInputExt(AudioFile(p + "." + e, t)) == "ogg"
    ensures ToLowerCase(e) == "mp4" ==> InferInputExt(AudioFile(p + "." + e, t)) == "m4a"
  {
    var l := ToLowerCase(e);
    if l == "oga" {
      assert l == ['o', 'g', 'a'];
      assert NormalizeExt(l) == "ogg";
    } else {
      assert l == ['m', 'p', '4'];
      assert NormalizeExt(l) == "m4a";
    }
    InferDottedName(p, e, t);
  }

  /** An unknown name extension gives `audio`, whatever the MIME type says. */
  lemma InferUnknownExample(f: AudioFile)
    requires f.name == "clip.xyz"
    ensures InferInputExt(f) == "audio"
  {
    assert ToLowerCase(f.name) == "clip" + "." + "xyz";
    NameExtOfDotted("clip", "xyz");
    XyzIsNotAllowed();
  }

  lemma XyzIsNotAllowed()
    ensures "xyz" !in AllowedExts
  {
  }

  /** Neither name nor type: `audio`. */
  lemma InferEmptyExample(f: AudioFile)
    requires f.name == "" && f.mimeType == ""
    ensures InferInputExt(f) == "audio"
  {
  }

  /** Lower-casing adds no dot and moves no whitespace. */
  lemma LowerCaseKeepsShape(s: string)
    ensures '.' !in s ==> '.' !in ToLowerCase(s)
    ensures s != [] && !IsJsWhiteSpace(s[0]) ==> !IsJsWhiteSpace(ToLowerCase(s)[0])
    ensures s != [] && !IsJsWhiteSpace(s[|s| - 1]) ==> !IsJsWhiteSpace(ToLowerCase(s)[|s| - 1])
  {
    var n := ToLowerCase(s);
    if '.' !in s {
      forall k | 0 <= k < |n| ensures n[k] != '.' {
        assert s[k] in s;
      }
    }
  }

  /** A lower-case name without a dot has itself as the text after its last dot. */
  lemma AfterLastDotWithoutDot(n: string)
    requires '.' !in n
    ensures AfterLastDot(n) == n
  {
    assert forall k :: 0 <= k < |n| ==> n[k] != '.';
    assert LastIndexOf(n, '.') == -1;
  }

  /** A name without a dot and without whitespace at either end is its own extension
      candidate, so it offers none and only the MIME type counts: the result is that of a file
      without a name. */
  lemma InferDotlessName(f: AudioFile)
    requires '.' !in f.name
    requires f.name == [] || (!IsJsWhiteSpace(f.name[0]) && !IsJsWhiteSpace(f.name[|f.name| - 1]))
    ensures InferInputExt(f) == InferInputExt(AudioFile("", f.mimeType))
  {
    DotlessNameLacksExt(f.name);
    InferWithoutNameExt(f);
  }

  lemma DotlessNameLacksExt(name: string)
    requires '.' !in name
    requires name == [] || (!IsJsWhiteSpace(name[0]) && !IsJsWhiteSpace(name[|name| - 1]))
    ensures LacksNameExt(ToLowerCase(name))
  {
    var n := ToLowerCase(name);
    LowerCaseKeepsShape(name);
    AfterLastDotWithoutDot(n);
    TrimOfTrimmed(n);
  }

  /** Without a name extension the name plays no part: the result is that of a file without a
      name and with the same MIME type. */
  lemma InferWithoutNameExt(f: AudioFile)
    requires LacksNameExt(ToLowerCase(f.name))
    ensures InferInputExt(f) == InferInputExt(AudioFile("", f.mimeType))
  {
    DotlessNameLacksExt("");
  }

  /** `ext === name` compares the trimmed candidate with the untrimmed name, so a dotless name
      with leading whitespace is taken as its own extension and the MIME type is ignored. */
  lemma InferPaddedName(f: AudioFile, v: string)
    requires f.name == " " + v && v != [] && '.' !in v
    requires !IsJsWhiteSpace(v[0]) && !IsJsWhiteSpace(v[|v| - 1])
    ensures InferInputExt(f) == Whitelisted(ToLowerCase(v))
  {
    var l := ToLowerCase(v);
    LowerCaseConcat(" ", v);
    assert ToLowerCase(" ") == " ";
    assert ToLowerCase(f.name) == " " + l;
    LowerCaseKeepsShape(v);
    PaddedNameExt(l);
    InferFromName(f, f.mimeType);
  }

  /** A dotless `l` without whitespace at either end, behind one space, offers `l` itself. */
  lemma PaddedNameExt(l: string)
    requires l != [] && '.' !in l
    requires !IsJsWhiteSpace(l[0]) && !IsJsWhiteSpace(l[|l| - 1])
    ensures NameExt(" " + l) == l && !LacksNameExt(" " + l)
  {
    PaddedHasNoDot(l);
    AfterLastDotWithoutDot(" " + l);
    PaddedTrim(l);
  }

  lemma PaddedHasNoDot(l: string)
    requires '.' !in l
    ensures '.' !in " " + l
  {
    var n := " " + l;
    forall k | 0 <= k < |n| ensures n[k] != '.' {
      if k > 0 { assert n[k] == l[k - 1]; }
    }
  }

  /** Trimming `" " + l` gives `l` when `l` has no whitespace at either end. */
  lemma PaddedTrim(l: string)
    requires l != [] && !IsJsWhiteSpace(l[0]) && !IsJsWhiteSpace(l[|l| - 1])
    ensures Trim(" " + l) == l
  {
    var n := " " + l;
    TrimOfTrimmed(l);
    assert n[1..] == l;
    assert LeadingWhiteSpace(n) == 1;
  }

  /** A name without a usable extension and a MIME type the heuristic rejects give `audio`;
      equivalently, a type-derived extension other than `audio` implies the heuristic holds. */
  lemma MimeFallbackAgreesWithHeuristic(f: AudioFile)
    requires LacksNameExt(ToLowerCase(f.name))
    ensures !IsProbablyWhatsAppVoice(f) ==> InferInputExt(f) == "audio"
  {
  }

  // ---------------------------------------------------------------------------------------
  // safeBaseName

  /** A match of `/\.[^/.]+$/` starts at `j`: a dot followed, up to the end, by at least one
      character that is neither `.` nor `/`. */
  predicate IsExtSuffixAt(s: string, j: int) {
    0 <= j < |s| - 1 && s[j] == '.' && '.' !in s[j + 1..] && '/' !in s[j + 1..]
  }

  /** `s.replace(/\.[^/.]+$/, "")`: drops the last dot and what follows it when that is
      non-empty and holds no `/`. */
  function StripLastExt(s: string): (r: string)
    ensures r == s || (IsExtSuffixAt(s, |r|) && r == s[..|r|])
  {
    var i := LastIndexOf(s, '.');
    if 0 <= i < |s| - 1 && '/' !in s[i + 1..] then
      assert '.' !in s[i + 1..] by {
        forall k | i + 1 <= k < |s| ensures s[k] != '.' { }
      }
      s[..i]
    else s
  }

  /** The suffix is stripped exactly when the regular expression matches. */
  lemma StripLastExtIffMatch(s: string)
    ensures StripLastExt(s) != s <==> exists j :: IsExtSuffixAt(s, j)
  {
    var r := StripLastExt(s);
    if r != s {
      assert IsExtSuffixAt(s, |r|);
    }
    forall j | IsExtSuffixAt(s, j) ensures r != s {
      forall k | j + 1 <= k < |s| ensures s[k] != '.' {
        assert s[k] == s[j + 1..][k - j - 1];
      }
      assert LastIndexOf(s, '.') == j;
    }
  }

  /** A name without a dot is kept whole. */
  lemma StripLastExtWithoutDot(s: string)
    requires '.' !in s
    ensures StripLastExt(s) == s
  {
    assert forall k :: 0 <= k < |s| ==> s[k] != '.';
    assert LastIndexOf(s, '.') == -1;
  }

  /** Only the final `.suffix` goes: whatever precedes it is kept, dots and all. */
  lemma StripLastExtOfDotted(p: string, e: string)
    requires e != "" && '.' !in e && '/' !in e
    ensures StripLastExt(p + "." + e) == p
  {
    AfterLastDotOfDotted(p, e);
    assert (p + "." + e)[..|p|] == p;
  }

  /** The characters `[A-Za-z0-9_\- ]` that the sanitiser keeps. */
  predicate IsNameChar(c: char) {
    ('A' <= c <= 'Z') || ('a' <= c <= 'z') || ('0' <= c <= '9') || c == '_' || c == '-' || c == ' '
  }

  predicate AllNameChars(s: string) {
    forall i :: 0 <= i < |s| ==> IsNameChar(s[i])
  }

  /** `s.replace(/[^\w\- ]+/g, "")`: keeps the name characters, in order. */
  function Sanitize(s: string): (r: string)
    ensures |r| <= |s| && AllNameChars(r)
    ensures AllNameChars(s) ==> r == s
    decreases |s|
  {
    if s == [] then []
    else (if IsNameChar(s[0]) then [s[0]] else []) + Sanitize(s[1..])
  }

  /** Sanitising works character by character. */
  lemma {:induction false} SanitizeConcat(a: string, b: string)
    ensures Sanitize(a + b) == Sanitize(a) + Sanitize(b)
    decreases |a|
  {
    if a == [] {
      assert a + b == b;
    } else {
      assert (a + b)[0] == a[0];
      assert (a + b)[1..] == a[1..] + b;
      SanitizeConcat(a[1..], b);
    }
  }

  /** The name used when nothing is left. */
  const FallbackName: string := "voice-note"

  lemma FallbackNameIsClean()
    ensures AllNameChars(FallbackName)
    ensures FallbackName[0] != ' ' && FallbackName[|FallbackName| - 1] != ' '
  {
    assert FallbackName == ['v', 'o', 'i', 'c', 'e', '-', 'n', 'o', 't', 'e'];
  }

  /** Trimming a clean name leaves a clean name that neither starts nor ends with a space. */
  lemma TrimmedNameIsClean(c: string)
    requires AllNameChars(c)
    ensures AllNameChars(Trim(c))
    ensures Trim(c) == [] || (Trim(c)[0] != ' ' && Trim(c)[|Trim(c)| - 1] != ' ')
  {
    var t := Trim(c);
    TrimSpec(c);
    forall k | 0 <= k < |t| ensures IsNameChar(t[k]) {
      assert t[k] in t;
    }
  }

  /** The base name of the downloaded MP3. */
  function SafeBaseName(filename: string): (r: string)
    ensures r != [] && AllNameChars(r)
    ensures r[0] != ' ' && r[|r| - 1] != ' '
  {
    var c := Sanitize(StripLastExt(if filename == "" then FallbackName else filename));
    TrimmedNameIsClean(c);
    FallbackNameIsClean();
    if Trim(c) == "" then FallbackName else Trim(c)
  }

  /** A clean name with no space at either end is its own safe base name. */
  lemma SafeBaseNameOfClean(r: string)
    requires r != [] && AllNameChars(r) && r[0] != ' ' && r[|r| - 1] != ' '
    ensures SafeBaseName(r) == r
  {
    assert '.' !in r by {
      forall k | 0 <= k < |r| ensures r[k] != '.' {
        assert IsNameChar(r[k]);
      }
    }
    StripLastExtWithoutDot(r);
    assert Sanitize(StripLastExt(r)) == r;
    assert !IsJsWhiteSpace(r[0]) && !IsJsWhiteSpace(r[|r| - 1]);
    TrimOfTrimmed(r);
  }

  /** A safe base name is its own safe base name. */
  lemma SafeBaseNameIdempotent(filename: string)
    ensures SafeBaseName(SafeBaseName(filename)) == SafeBaseName(filename)
  {
    SafeBaseNameOfClean(SafeBaseName(filename));
  }

  /** A disallowed character between two clean strings is deleted and nothing else. */
  lemma {:induction false} SanitizeDropsOne(v: string, c: char, n: string)
    requires AllNameChars(v) && !IsNameChar(c) && AllNameChars(n)
    ensures Sanitize(v + [c] + n) == v + n
  {
    SanitizeConcat(v + [c], n);
    SanitizeConcat(v, [c]);
    assert [c][1..] == [];
  }

  /** The extension goes, the disallowed `!` goes, the spaces stay. */
  lemma SafeBaseNameExample(filename: string)
    requires filename == "My Voice! Note.m4a"
    ensures SafeBaseName(filename) == "My Voice Note"
  {
    var v, n := "My Voice", " Note";
    assert v == ['M', 'y', ' ', 'V', 'o', 'i', 'c', 'e'];
    assert n == [' ', 'N', 'o', 't', 'e'];
    assert filename == v + ['!'] + n + "." + "m4a";
    StripLastExtOfDotted(v + ['!'] + n, "m4a");
    SanitizeDropsOne(v, '!', n);
    assert v + n == "My Voice Note";
    TrimOfTrimmed(v + n);
  }

  /** Nothing usable is left, so the fallback name is used. */
  lemma SafeBaseNameFallbackExample(filename: string)
    requires filename == "####.opus"
    ensures SafeBaseName(filename) == FallbackName
  {
    assert filename == "####" + "." + "opus";
    StripLastExtOfDotted("####", "opus");
    var h := "####";
    assert Sanitize(h) == [] by {
      assert h[1..][1..][1..][1..] == [];
    }
  }

  lemma SafeBaseNameEmptyExample()
    ensures SafeBaseName("") == FallbackName
  {
    FallbackNameIsClean();
    assert '.' !in FallbackName;
    TrimOfTrimmed(FallbackName);
  }

  /** Only `.c` is stripped; the inner dot is then deleted as a disallowed character. */
  lemma SafeBaseNameInnerDotExample(filename: string)
    requires filename == "a.b.c"
    ensures SafeBaseName(filename) == "ab"
  {
    var a, b := "a", "b";
    assert filename == a + ['.'] + b + "." + "c";
    StripLastExtOfDotted(a + ['.'] + b, "c");
    assert AllNameChars(a) && AllNameChars(b);
    SanitizeDropsOne(a, '.', b);
    assert a + b == "ab";
    TrimOfTrimmed(a + b);
  }
}
