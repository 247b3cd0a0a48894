/** `RenamerWorker.clean_filename`: a left fold of case-insensitive regular
    expression substitutions over a name, followed by `strip(" -_")`. */
module Cleaner {
  import opened Base
  import opened Text

  /** `re.sub(pattern, replacement, s, flags=re.IGNORECASE)`, with the
      arguments in that order. The regular expression engine is not modelled:
      every property below holds whatever this function does. */
  type Substitution = (string, string, string) -> string

  /** One substitution step of the loop in `clean_filename`. */
  function ApplyOne(sub: Substitution, t: Template, s: string): string {
    sub(t.pattern, t.replacement, s)
  }

  /** The substitution loop: each template in list order, each output fed to
      the next template, no template applied twice. */
  function ApplyTemplates(sub: Substitution, templates: seq<Template>, name: string): string
    decreases |templates|
  {
    if templates == [] then name
    else ApplyTemplates(sub, templates[1..], ApplyOne(sub, templates[0], name))
  }

  /** `clean_filename(name)`. */
  function CleanFilename(sub: Substitution, templates: seq<Template>, name: string): (r: string)
    ensures Unpadded(r, TrimChars)
    ensures |r| <= |ApplyTemplates(sub, templates, name)|
  {
    Strip(ApplyTemplates(sub, templates, name), TrimChars)
  }

  /** Reference definition of the pass: the sequence of intermediate values,
      built from the last template backwards. Entry 0 is the input, entry
      i + 1 is template i applied to entry i. */
  function Trace(sub: Substitution, templates: seq<Template>, name: string): (tr: seq<string>)
    ensures |tr| == |templates| + 1
    ensures tr[0] == name
    ensures forall i :: 0 <= i < |templates| ==> tr[i + 1] == ApplyOne(sub, templates[i], tr[i])
    decreases |templates|
  {
    if templates == [] then [name]
    else
      var front := Trace(sub, templates[..|templates| - 1], name);
      front + [ApplyOne(sub, templates[|templates| - 1], front[|front| - 1])]
  }

  /** Appending a template applies it once, to the result of the earlier ones. */
  lemma {:induction false} ApplyTemplatesSnoc(sub: Substitution, templates: seq<Template>, t: Template, name: string)
    ensures ApplyTemplates(sub, templates + [t], name) == ApplyOne(sub, t, ApplyTemplates(sub, templates, name))
    decreases |templates|
  {
    if templates == [] {
      assert [] + [t] == [t];
      assert ([t])[1..] == [];
    } else {
      assert (templates + [t])[1..] == templates[1..] + [t];
      ApplyTemplatesSnoc(sub, templates[1..], t, ApplyOne(sub, templates[0], name));
    }
  }

  /** Running two lists one after the other is running their concatenation. */
  lemma {:induction false} ApplyTemplatesAppend(sub: Substitution, a: seq<Template>, b: seq<Template>, name: string)
    ensures ApplyTemplates(sub, a + b, name) == ApplyTemplates(sub, b, ApplyTemplates(sub, a, name))
    decreases |a|
  {
    if a == [] {
      assert [] + b == b;
    } else {
      assert (a + b)[1..] == a[1..] + b;
      ApplyTemplatesAppend(sub, a[1..], b, ApplyOne(sub, a[0], name));
    }
  }

  /** The fold agrees with the reference trace: its result is the last
      intermediate value, so every template is applied exactly once, in order. */
  lemma {:induction false} ApplyTemplatesIsTrace(sub: Substitution, templates: seq<Template>, name: string)
    ensures ApplyTemplates(sub, templates, name) == Trace(sub, templates, name)[|templates|]
    decreases |templates|
  {
    if templates != [] {
      var init := templates[..|templates| - 1];
      var last := templates[|templates| - 1];
      assert templates == init + [last];
      ApplyTemplatesSnoc(sub, init, last, name);
      ApplyTemplatesIsTrace(sub, init, name);
    }
  }

  /** Cleaning with one more template strips the substitution of the earlier
      pass's unstripped result: there is no intermediate stripping and no
      re-application of earlier templates. */
  lemma CleanFilenameSnoc(sub: Substitution, templates: seq<Template>, t: Template, name: string)
    ensures CleanFilename(sub, templates + [t], name)
         == Strip(ApplyOne(sub, t, ApplyTemplates(sub, templates, name)), TrimChars)
  {
    ApplyTemplatesSnoc(sub, templates, t, name);
  }

  /** With no templates, cleaning is `strip(" -_")` alone. */
  lemma CleanWithoutTemplates(sub: Substitution, name: string)
    ensures CleanFilename(sub, [], name) == Strip(name, TrimChars)
    ensures Unpadded(name, TrimChars) ==> CleanFilename(sub, [], name) == name
  {
    StripFixedIff(name, TrimChars);
  }

  /** The cleaned name is a contiguous piece of the substituted name, cut only
      at runs of spaces, hyphens and underscores. */
  lemma CleanIsTrimmedSubstitution(sub: Substitution, templates: seq<Template>, name: string)
    ensures IsTrimOf(CleanFilename(sub, templates, name), ApplyTemplates(sub, templates, name), TrimChars)
  {
    StripIsMiddle(ApplyTemplates(sub, templates, name), TrimChars);
  }

  /** A name that no template changes and that has nothing to strip comes
      out of cleaning unchanged. */
  lemma {:induction false} StableNameUnchanged(sub: Substitution, templates: seq<Template>, name: string)
    requires forall i :: 0 <= i < |templates| ==> ApplyOne(sub, templates[i], name) == name
    requires Unpadded(name, TrimChars)
    ensures CleanFilename(sub, templates, name) == name
  {
    ApplyTemplatesFixed(sub, templates, name);
    StripFixedIff(name, TrimChars);
  }

  lemma {:induction false} ApplyTemplatesFixed(sub: Substitution, templates: seq<Template>, name: string)
    requires forall i :: 0 <= i < |templates| ==> ApplyOne(sub, templates[i], name) == name
    ensures ApplyTemplates(sub, templates, name) == name
    decreases |templates|
  {
    if templates != [] {
      assert ApplyOne(sub, templates[0], name) == name;
      assert forall i :: 0 <= i < |templates[1..]| ==> templates[1..][i] == templates[i + 1];
      ApplyTemplatesFixed(sub, templates[1..], name);
    }
  }
}
