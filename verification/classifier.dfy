/** The file classifier (`handleFiles`): splits a batch of files into the
    allowed and the forbidden ones against the resolved lists, then reports
    the result through the caller's callbacks or an alert. */
module Classifier {
  import opened Strings
  import opened Resolver

  /** A browser `File`, reduced to what the classifier reads: its name and
      its declared MIME type (`File.type`, possibly empty). */
  datatype File = File(name: string, mimeType: string)

  /** The literal "extension" of a file name: a dot followed by whatever
      follows the last dot, character for character (no case folding); a
      name without a dot gives a dot followed by the whole name. */
  function Extension(name: string): (e: string)
    ensures |e| >= 1 && e[0] == '.' && '.' !in e[1..]
    ensures |e| - 1 <= |name|
    ensures name[|name| - (|e| - 1)..] == e[1..]
    ensures |e| - 1 < |name| ==> name[|name| - |e|] == '.'
    ensures '.' !in name ==> e == "." + name
  {
    LastSegmentIsTail(name, '.');
    var e := "." + LastSegment(name, '.');
    assert e[1..] == LastSegment(name, '.');
    e
  }

  /** A name made of a stem, a dot and a dot-free tail has that tail as its
      extension, whatever the stem holds. */
  lemma ExtensionAfterDot(stem: string, tail: string)
    requires '.' !in tail
    ensures Extension(stem + "." + tail) == "." + tail
  {
    var name := stem + "." + tail;
    var seg := LastSegment(name, '.');
    LastSegmentIsTail(name, '.');
    assert name[|stem|] == '.';
    assert seg == name[|name| - |tail|..] == tail;
  }

  /** The acceptance test applied to each file: a file whose declared type
      is an allowed MIME type always passes; and since every resolved
      unsupported MIME type is also an allowed one, for resolved lists the
      test reduces to "allowed MIME type, or allowed unsupported extension". */
  function IsAllowed(r: Resolved, f: File): (ok: bool)
    ensures f.mimeType in r.allowedFileMimes ==> ok
    ensures (forall x :: x in r.allowedUnsupportedFileMimes ==> x in r.allowedFileMimes) ==>
      (ok <==> f.mimeType in r.allowedFileMimes || Extension(f.name) in r.allowedUnsupportedFileExtensions)
  {
    || f.mimeType in r.allowedFileMimes
    || f.mimeType in r.allowedUnsupportedFileMimes
    || Extension(f.name) in r.allowedUnsupportedFileExtensions
  }

  /** The elements `x` of `s` with `p(x) == keep`, in their original order. */
  function Filter<T>(s: seq<T>, p: T -> bool, keep: bool): (out: seq<T>)
    ensures |out| <= |s|
    decreases |s|
  {
    if |s| == 0 then []
    else
      var last := s[|s| - 1];
      Filter(s[..|s| - 1], p, keep) + (if p(last) == keep then [last] else [])
  }

  /** Extending the input by one element extends the filter by it or not. */
  lemma FilterStep<T>(s: seq<T>, i: nat, p: T -> bool, keep: bool)
    requires i < |s|
    ensures Filter(s[..i + 1], p, keep) == Filter(s[..i], p, keep) + (if p(s[i]) == keep then [s[i]] else [])
  {
    assert s[..i + 1][..i] == s[..i];
  }

  /** `x` survives the filter exactly when it is in `s` and `p(x) == keep`. */
  lemma {:induction false} FilterMembers<T>(s: seq<T>, p: T -> bool, keep: bool, x: T)
    ensures x in Filter(s, p, keep) <==> x in s && p(x) == keep
    decreases |s|
  {
    if |s| > 0 {
      var n := |s| - 1;
      FilterMembers(s[..n], p, keep, x);
      assert s == s[..n] + [s[n]];
    }
  }

  /** `s` is an order-preserving merge of `a` and `b`: every element of `s`
      comes from exactly one of them, each in its original relative order. */
  predicate Interleaves<T(==)>(s: seq<T>, a: seq<T>, b: seq<T>)
    decreases |s|
  {
    if |s| == 0 then a == [] && b == []
    else
      || (|a| > 0 && a[|a| - 1] == s[|s| - 1] && Interleaves(s[..|s| - 1], a[..|a| - 1], b))
      || (|b| > 0 && b[|b| - 1] == s[|s| - 1] && Interleaves(s[..|s| - 1], a, b[..|b| - 1]))
  }

  /** The kept and the dropped elements interleave to the input. */
  lemma {:induction false} FilterInterleaves<T>(s: seq<T>, p: T -> bool)
    ensures Interleaves(s, Filter(s, p, true), Filter(s, p, false))
    decreases |s|
  {
    if |s| > 0 {
      var n := |s| - 1;
      FilterInterleaves(s[..n], p);
      var a0, b0 := Filter(s[..n], p, true), Filter(s[..n], p, false);
      if p(s[n]) {
        var a := a0 + [s[n]];
        assert a[..|a| - 1] == a0;
        assert Filter(s, p, true) == a && Filter(s, p, false) == b0;
        assert |a| > 0 && a[|a| - 1] == s[n] && Interleaves(s[..n], a[..|a| - 1], b0);
      } else {
        var b := b0 + [s[n]];
        assert b[..|b| - 1] == b0;
        assert Filter(s, p, true) == a0 && Filter(s, p, false) == b;
        assert |b| > 0 && b[|b| - 1] == s[n] && Interleaves(s[..n], a0, b[..|b| - 1]);
      }
    }
  }

  /** The kept and the dropped elements together are the input, counting
      repeats. */
  lemma {:induction false} FilterCounts<T>(s: seq<T>, p: T -> bool)
    ensures multiset(Filter(s, p, true)) + multiset(Filter(s, p, false)) == multiset(s)
    ensures |Filter(s, p, true)| + |Filter(s, p, false)| == |s|
    decreases |s|
  {
    if |s| > 0 {
      var n := |s| - 1;
      FilterCounts(s[..n], p);
      assert s == s[..n] + [s[n]];
    }
    assert |multiset(Filter(s, p, true)) + multiset(Filter(s, p, false))| == |multiset(s)|;
  }

  /** The files whose acceptance is `allowed`, in input order. */
  function Select(files: seq<File>, r: Resolved, allowed: bool): seq<File> {
    Filter(files, f => IsAllowed(r, f), allowed)
  }

  /** The allowed and the forbidden files partition the batch exactly: each
      file goes to one side, nothing is lost or duplicated, both sides keep
      the input order, and a file is allowed exactly when it passes the
      acceptance test. */
  lemma SelectPartitions(files: seq<File>, r: Resolved)
    ensures var a, b := Select(files, r, true), Select(files, r, false);
      && Interleaves(files, a, b)
      && |a| + |b| == |files|
      && multiset(a) + multiset(b) == multiset(files)
      && (forall f :: f in a <==> f in files && IsAllowed(r, f))
      && (forall f :: f in b <==> f in files && !IsAllowed(r, f))
  {
    var p := f => IsAllowed(r, f);
    FilterInterleaves(files, p);
    FilterCounts(files, p);
    forall f
      ensures f in Select(files, r, true) <==> f in files && IsAllowed(r, f)
      ensures f in Select(files, r, false) <==> f in files && !IsAllowed(r, f)
    {
      FilterMembers(files, p, true, f);
      FilterMembers(files, p, false, f);
    }
  }

  /** What the widget does with the result, in order. */
  datatype Event =
    | Rejected(files: seq<File>)  // the caller's `onReject`
    | Alerted(message: string)    // the blocking `alert`
    | Changed(files: seq<File>)   // the caller's `onChange`

  /** The alert's first line, written in pieces so the verifier can inspect
      its characters: "The following files did not match the expected format
      and will therefore not be accepted:". */
  const RejectionHeader: string :=
    "The following " + "files did not " + "match the expected " + "format and will " +
    "therefore not be " + "accepted:"

  const BulletPrefix: string := "    - "

  /** One alert line per forbidden file. */
  function BulletLines(forbidden: seq<File>): (lines: seq<string>)
    ensures |lines| == |forbidden|
    ensures forall i :: 0 <= i < |forbidden| ==> lines[i] == BulletPrefix + forbidden[i].name
  {
    seq(|forbidden|, i requires 0 <= i < |forbidden| => BulletPrefix + forbidden[i].name)
  }

  /** The alert text: the header and the bullet lines joined by newlines.
      Reading it back line by line gives the header and then "    - <name>"
      for each forbidden file in order, provided no file name itself
      contains a newline. */
  function AlertMessage(forbidden: seq<File>): (text: string)
    ensures (forall i :: 0 <= i < |forbidden| ==> '\n' !in forbidden[i].name) ==>
      Split(text, '\n') == [RejectionHeader] + BulletLines(forbidden)
  {
    AlertLinesRoundTrip(forbidden);
    Join([RejectionHeader] + BulletLines(forbidden), '\n')
  }

  lemma HeaderHasNoNewline()
    ensures '\n' !in RejectionHeader
  {
    var a, b, c, d, e, f := "The following ", "files did not ", "match the expected ", "format and will ",
      "therefore not be ", "accepted:";
    assert '\n' !in a && '\n' !in b && '\n' !in c && '\n' !in d && '\n' !in e && '\n' !in f;
    assert RejectionHeader == a + b + c + d + e + f;
  }

  /** Joining the alert lines and splitting them again gives them back when
      no file name contains a newline. */
  lemma AlertLinesRoundTrip(forbidden: seq<File>)
    ensures var lines := [RejectionHeader] + BulletLines(forbidden);
      (forall i :: 0 <= i < |forbidden| ==> '\n' !in forbidden[i].name) ==> Split(Join(lines, '\n'), '\n') == lines
  {
    var lines := [RejectionHeader] + BulletLines(forbidden);
    if forall i :: 0 <= i < |forbidden| ==> '\n' !in forbidden[i].name {
      HeaderHasNoNewline();
      forall i | 0 <= i < |lines|
        ensures '\n' !in lines[i]
      {
        if i > 0 {
          assert lines[i] == BulletPrefix + forbidden[i - 1].name;
          assert '\n' !in BulletPrefix;
        }
      }
      SplitJoin(lines, '\n');
    }
  }

  /** Number of `Changed` events in a trace. */
  function ChangedCount(events: seq<Event>): nat
    decreases |events|
  {
    if |events| == 0 then 0
    else (if events[0].Changed? then 1 else 0) + ChangedCount(events[1..])
  }

  /** The reporting step: a forbidden file triggers exactly one of
      `onReject` (when supplied) or the alert; `onChange` then fires exactly
      once with the allowed files, even when there are none. */
  function Report(allowed: seq<File>, forbidden: seq<File>, hasOnReject: bool): (events: seq<Event>)
    ensures |events| >= 1 && events[|events| - 1] == Changed(allowed)
    ensures ChangedCount(events) == 1
    ensures |forbidden| == 0 ==> events == [Changed(allowed)]
    ensures |forbidden| > 0 && hasOnReject ==> events == [Rejected(forbidden), Changed(allowed)]
    ensures |forbidden| > 0 && !hasOnReject ==> events == [Alerted(AlertMessage(forbidden)), Changed(allowed)]
  {
    var rejection :=
      if |forbidden| == 0 then []
      else if hasOnReject then [Rejected(forbidden)]
      else [Alerted(AlertMessage(forbidden))];
    var events := rejection + [Changed(allowed)];
    assert ChangedCount([Changed(allowed)]) == 1;
    assert |rejection| == 1 ==> events[1..] == [Changed(allowed)];
    events
  }

  /** `handleFiles`: one pass over the batch, then the report. */
  method HandleFiles(files: seq<File>, r: Resolved, hasOnReject: bool)
    returns (allowedFiles: seq<File>, forbiddenFiles: seq<File>, events: seq<Event>)
    ensures allowedFiles == Select(files, r, true)
    ensures forbiddenFiles == Select(files, r, false)
    ensures events == Report(allowedFiles, forbiddenFiles, hasOnReject)
    ensures Interleaves(files, allowedFiles, forbiddenFiles)
    ensures forall f :: f in allowedFiles <==> f in files && IsAllowed(r, f)
    ensures forall f :: f in forbiddenFiles <==> f in files && !IsAllowed(r, f)
  {
    allowedFiles := [];
    forbiddenFiles := [];
    var i := 0;
    while i < |files|
      invariant 0 <= i <= |files|
      invariant allowedFiles == Select(files[..i], r, true)
      invariant forbiddenFiles == Select(files[..i], r, false)
    {
      var file := files[i];
      FilterStep(files, i, f => IsAllowed(r, f), true);
      FilterStep(files, i, f => IsAllowed(r, f), false);
      if file.mimeType in r.allowedFileMimes {
        allowedFiles := allowedFiles + [file];
      } else {
        if file.mimeType in r.allowedUnsupportedFileMimes
          || Extension(file.name) in r.allowedUnsupportedFileExtensions
        {
          allowedFiles := allowedFiles + [file];
        } else {
          forbiddenFiles := forbiddenFiles + [file];
        }
      }
      i := i + 1;
    }
    assert files[..|files|] == files;
    SelectPartitions(files, r);
    events := Report(allowedFiles, forbiddenFiles, hasOnReject);
  }
}
