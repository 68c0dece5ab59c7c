/** End-to-end cases for the resolver and the classifier: concrete accept
    lists and files with the outcome the widget produces for them. Each
    case takes its literal accept list through a parameter (`requires
    accept == [...]`) rather than writing it inside `Resolve(...)`, so that
    the verifier does not unfold `Resolve` on a literal argument all at
    once; the helper lemmas then establish the resolution step by step. */
module Scenarios {
  import opened Strings
  import opened FileTypes
  import opened Resolver
  import opened Classifier

  /** The extension of a name given as stem, dot and tail. */
  lemma ExtensionOfName(name: string, stem: string, tail: string)
    requires name == stem + ("." + tail) && '.' !in tail
    ensures Extension(name) == "." + tail
  {
    assert name == stem + "." + tail;
    ExtensionAfterDot(stem, tail);
  }

  /** Lists holding a single extension admit a file exactly by that
      extension. */
  lemma ExtensionListAdmits(r: Resolved, f: File, ext: string)
    requires r == Resolved([], [], [ext], [])
    ensures IsAllowed(r, f) <==> Extension(f.name) == ext
  {
  }

  /** Accepting ".png" admits a PNG and turns away a JPEG. */
  lemma PngOnly(accept: seq<string>)
    requires accept == [".png"]
    ensures var r := Resolve(accept);
      && IsAllowed(r, File("photo.png", "image/png"))
      && !IsAllowed(r, File("photo.jpg", "image/jpeg"))
      && Diagnostics(r) == []
  {
    assert ToLower(".png") == ".png";
    ResolveTableKey(".png");
    assert Resolve(accept) == Resolved(["image/png"], [], [], []);
    ExtensionAfterDot("photo", "jpg");
  }

  /** An uncurated MIME type is allowed on its declared type and draws one
      warning. */
  lemma UncuratedMime(accept: seq<string>)
    requires accept == ["image/svg+xml"]
    ensures var r := Resolve(accept);
      && IsAllowed(r, File("logo.svg", "image/svg+xml"))
      && Diagnostics(r) == [Diagnostic(Warning, UnsupportedMessage("image/svg+xml"))]
  {
    var t := "image/svg+xml";
    SvgResolution(accept);
    WarningOnly(Resolve(accept), t);
  }

  lemma SvgResolution(accept: seq<string>)
    requires accept == ["image/svg+xml"]
    ensures Resolve(accept) == Resolved(["image/svg+xml"], ["image/svg+xml"], [], [])
  {
    var t := "image/svg+xml";
    assert ToLower(t) == t;
    assert t !in Table;
    assert t !in SupportedMimes;
    assert t[5] == '/';
    ResolveUncuratedToken(t);
  }

  lemma WarningOnly(r: Resolved, t: string)
    requires r == Resolved([t], [t], [], []) || r == Resolved([], [], [t], [])
    ensures Diagnostics(r) == [Diagnostic(Warning, UnsupportedMessage(t))]
  {
  }

  /** An uncurated dotted extension admits any file with that extension by
      its name alone, whatever its declared type (even an empty one). */
  lemma UncuratedExtension(accept: seq<string>, stem: string, declared: string)
    requires accept == [".xyz-not-real"]
    ensures var r := Resolve(accept);
      && IsAllowed(r, File(stem + ".xyz-not-real", declared))
      && Diagnostics(r) == [Diagnostic(Warning, UnsupportedMessage(".xyz-not-real"))]
  {
    XyzResolution(accept);
    XyzOutcome(Resolve(accept), stem, declared);
  }

  lemma XyzOutcome(r: Resolved, stem: string, declared: string)
    requires r == Resolved([], [], [".xyz-not-real"], [])
    ensures IsAllowed(r, File(stem + ".xyz-not-real", declared))
    ensures Diagnostics(r) == [Diagnostic(Warning, UnsupportedMessage(".xyz-not-real"))]
  {
    WarningOnly(r, ".xyz-not-real");
    assert "." + "xyz-not-real" == ".xyz-not-real";
    assert '.' !in "xyz-not-real";
    ExtensionOfName(stem + ".xyz-not-real", stem, "xyz-not-real");
    ExtensionListAdmits(r, File(stem + ".xyz-not-real", declared), ".xyz-not-real");
  }

  lemma XyzResolution(accept: seq<string>)
    requires accept == [".xyz-not-real"]
    ensures Resolve(accept) == Resolved([], [], [".xyz-not-real"], [])
  {
    var t := ".xyz-not-real";
    assert ToLower(t) == t;
    assert t !in Table;
    assert t !in SupportedMimes;
    assert '/' !in t && IsExtensionToken(t);
    ExtensionOnlyResolution(accept, t, t);
  }

  /** A one-token accept list whose lower-cased token is an uncurated dotted
      extension resolves to that extension alone. */
  lemma ExtensionOnlyResolution(accept: seq<string>, token: string, lowered: string)
    requires accept == [token] && ToLower(token) == lowered
    requires lowered !in Table && lowered !in SupportedMimes
    requires '/' !in lowered && IsExtensionToken(lowered)
    ensures Resolve(accept) == Resolved([], [], [lowered], [])
  {
    ResolveUncuratedToken(token);
  }

  /** The extension test is case-sensitive: the token ".XYZ" is lower-cased
      but a file's extension is not, so "<stem>.xyz" is admitted and
      "<stem>.XYZ" is not. */
  lemma ExtensionCaseKept(accept: seq<string>, stem: string)
    requires accept == [".XYZ"]
    ensures var r := Resolve(accept);
      && IsAllowed(r, File(stem + ".xyz", ""))
      && !IsAllowed(r, File(stem + ".XYZ", ""))
  {
    UpperXyzResolution(accept);
    ExtensionOfName(stem + ".xyz", stem, "xyz");
    ExtensionOfName(stem + ".XYZ", stem, "XYZ");
    ExtensionListAdmits(Resolve(accept), File(stem + ".xyz", ""), ".xyz");
    ExtensionListAdmits(Resolve(accept), File(stem + ".XYZ", ""), ".xyz");
  }

  lemma UpperXyzResolution(accept: seq<string>)
    requires accept == [".XYZ"]
    ensures Resolve(accept) == Resolved([], [], [".xyz"], [])
  {
    var t := ".xyz";
    assert ToLower(".XYZ") == t;
    assert t !in Table;
    assert t !in SupportedMimes;
    assert '/' !in t && IsExtensionToken(t);
    ExtensionOnlyResolution(accept, ".XYZ", t);
  }

  /** A token that is neither MIME- nor extension-shaped draws one error and
      admits nothing. */
  lemma MalformedToken(accept: seq<string>)
    requires accept == ["not-a-type-at-all"]
    ensures var r := Resolve(accept);
      && Diagnostics(r) == [Diagnostic(Error, InvalidMessage("not-a-type-at-all"))]
      && forall f :: !IsAllowed(r, f)
  {
    MalformedResolution(accept);
    MalformedOutcome(Resolve(accept));
  }

  lemma MalformedOutcome(r: Resolved)
    requires r == Resolved([], [], [], ["not-a-type-at-all"])
    ensures Diagnostics(r) == [Diagnostic(Error, InvalidMessage("not-a-type-at-all"))]
    ensures forall f :: !IsAllowed(r, f)
  {
  }

  lemma MalformedResolution(accept: seq<string>)
    requires accept == ["not-a-type-at-all"]
    ensures Resolve(accept) == Resolved([], [], [], ["not-a-type-at-all"])
  {
    var t := "not-a-type-at-all";
    assert ToLower(t) == t;
    assert t !in Table;
    assert t !in SupportedMimes;
    assert '/' !in t && !IsExtensionToken(t);
    ResolveUncuratedToken(t);
  }
}
