/**
 Decoding of a seat's `last_activity_editor` string, such as
 `"vscode/1.85.1/copilot/1.143.0"`, into editor, editor version, plugin and
 plugin version (team.py:105-113).

 The decoder replaces a falsy value by "N/A" BEFORE splitting, so a seat
 with no editor activity decodes to editor "N" and version "A": the
 `'N/A'` alternative for the first field can never be chosen, because a
 split always yields at least one part.
 */
module EditorActivity {
  import opened Values
  import opened Strings

  const Separator: char := '/'

  datatype EditorFields = EditorFields(editor: string, editorVersion: string, plugin: string, pluginVersion: string)

  /** Part `k` of a split, or "N/A" past its end. */
  function PartOr(parts: seq<string>, k: nat): string {
    if k < |parts| then parts[k] else NA
  }

  /** The four-field string an editor activity record is written as. */
  function Encode(f: EditorFields): string {
    Join([f.editor, f.editorVersion, f.plugin, f.pluginVersion], Separator)
  }

  predicate SeparatorFree(f: EditorFields) {
    && Separator !in f.editor && Separator !in f.editorVersion
    && Separator !in f.plugin && Separator !in f.pluginVersion
  }

  lemma SplitOfSentinel()
    ensures Split(NA, Separator) == ["N", "A"]
  {
    assert NA == "N" + [Separator] + "A";
    SplitWithoutSeparator("N");
    SplitWithoutSeparator("A");
    SplitAtSeparator("N", "A", Separator);
  }

  lemma {:induction false} SplitWithoutSeparator(s: string)
    ensures Separator !in s ==> Split(s, Separator) == [s]
  {
    if Separator !in s {
      SplitJoin([s], Separator);
    }
  }

  function DecodeEditor(raw: Field): (f: EditorFields)
    // a missing, null or empty value decodes as the text "N/A" would
    ensures !Truthy(raw) ==> f == EditorFields("N", "A", NA, NA)
    // a value without any separator is all editor
    ensures Truthy(raw) && Separator !in raw.text ==> f == EditorFields(raw.text, NA, NA, NA)
  {
    var text := OrNA(raw);
    var parts := Split(text, Separator);
    SplitOfSentinel();
    SplitWithoutSeparator(text);
    EditorFields(
      if |parts| > 0 then parts[0] else NA,
      PartOr(parts, 1),
      PartOr(parts, 2),
      PartOr(parts, 3))
  }

  /**
   A non-empty editor string made of separator-free segments decodes to
   those segments in order, "N/A" past the last one.
   */
  lemma {:induction false} DecodeSegments(segs: seq<string>)
    requires |segs| >= 1 && SepFree(segs, Separator)
    requires Join(segs, Separator) != ""
    ensures DecodeEditor(Str(Join(segs, Separator)))
         == EditorFields(segs[0], PartOr(segs, 1), PartOr(segs, 2), PartOr(segs, 3))
  {
    SplitJoin(segs, Separator);
  }

  /** Round trip: writing four separator-free fields and decoding them gives them back. */
  lemma DecodeEncode(f: EditorFields)
    requires SeparatorFree(f)
    ensures DecodeEditor(Str(Encode(f))) == f
  {
    var segs := [f.editor, f.editorVersion, f.plugin, f.pluginVersion];
    assert SepFree(segs, Separator) by {
      forall i | 0 <= i < 4 ensures Separator !in segs[i] { }
    }
    assert Encode(f) == f.editor + [Separator] + Join(segs[1..], Separator);
    assert Separator in Encode(f);
    DecodeSegments(segs);
  }

  /** Segments beyond the fourth are ignored. */
  lemma {:induction false} DecodeIgnoresExtraSegments(s: string, t: string)
    requires |Split(s, Separator)| >= 4
    ensures DecodeEditor(Str(s + [Separator] + t)) == DecodeEditor(Str(s))
  {
    SplitAtSeparator(s, t, Separator);
    JoinSplit(s, Separator);
    assert |s + [Separator] + t| > 0;
  }

  /**
   The first field is always taken from the split: it is the text up to
   the first separator (the whole text when there is none).
   */
  lemma FirstFieldIsPrefix(raw: Field)
    ensures var text := OrNA(raw);
            var e := DecodeEditor(raw).editor;
            && e <= text
            && Separator !in e
            && (|e| < |text| ==> text[|e|] == Separator)
  {
    var text := OrNA(raw);
    FirstPartIsPrefix(text);
  }

  lemma {:induction false} FirstPartIsPrefix(s: string)
    ensures var e := Split(s, Separator)[0];
            e <= s && Separator !in e && (|e| < |s| ==> s[|e|] == Separator)
    decreases |s|
  {
    if |s| > 0 && s[0] != Separator {
      FirstPartIsPrefix(s[1..]);
      var r := Split(s[1..], Separator)[0];
      assert Split(s, Separator)[0] == [s[0]] + r;
      assert s == [s[0]] + s[1..];
    }
  }
}
