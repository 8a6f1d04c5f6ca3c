/**
  Delivery of the payload to one normalised number: with no media file the
  text is sent; otherwise a missing file sends nothing, and the lower-cased
  extension picks the image send, the document send, or an error.
  The result is the list of events one call produces.
 */
module Dispatch {
  import opened Events

  /** The seconds the image send is told to wait before it sends. */
  const ImageWaitSeconds: nat := 15

  const ImageExtensions: seq<string> := [".jpg", ".jpeg", ".png"]
  const DocumentExtensions: seq<string> := [".pdf", ".docx"]

  datatype MediaKind = Image | Document | Unsupported

  /** The last position of c in s, or -1 when c does not occur. */
  function LastIndexOf(s: string, c: char): (i: int)
    ensures -1 <= i < |s|
    ensures i >= 0 ==> s[i] == c
    ensures forall j :: i < j < |s| ==> s[j] != c
  {
    if s == [] then -1
    else if s[|s| - 1] == c then |s| - 1
    else LastIndexOf(s[..|s| - 1], c)
  }

  /** The contract of LastIndexOf determines its result. */
  lemma LastIndexUnique(s: string, c: char, i: int)
    requires -1 <= i < |s|
    requires i >= 0 ==> s[i] == c
    requires forall j :: i < j < |s| ==> s[j] != c
    ensures LastIndexOf(s, c) == i
  {
  }

  /** Some character of s[lo..hi] is not a dot. */
  predicate HasNonDot(s: string, lo: nat, hi: nat)
    requires lo <= hi <= |s|
  {
    exists j :: lo <= j < hi && s[j] != '.'
  }

  /** The extension os.path.splitext splits off a POSIX path: from the last dot
      of the final component, provided that dot is not part of the run of dots
      the final component starts with; otherwise empty. */
  function Extension(path: string): (ext: string)
    ensures ext == [] || (ext[0] == '.' && |ext| < |path| && ext == path[|path| - |ext|..])
    ensures forall i :: 0 < i < |ext| ==> ext[i] != '.' && ext[i] != '/'
  {
    var sep := LastIndexOf(path, '/');
    var dot := LastIndexOf(path, '.');
    if sep < dot && HasNonDot(path, sep + 1, dot) then path[dot..] else []
  }

  /** ASCII lower-casing of one character. */
  function LowerChar(c: char): char {
    if 'A' <= c <= 'Z' then (c as int - 'A' as int + 'a' as int) as char else c
  }

  /** str.lower() on ASCII letters; every other character is kept. */
  function Lower(s: string): (r: string)
    ensures |r| == |s|
    ensures forall i :: 0 <= i < |s| ==> r[i] == LowerChar(s[i])
    ensures forall i :: 0 <= i < |r| ==> !('A' <= r[i] <= 'Z')
    ensures forall i :: 0 <= i < |s| && !('A' <= s[i] <= 'Z') ==> r[i] == s[i]
    ensures forall i :: 0 <= i < |s| && 'A' <= s[i] <= 'Z' ==> r[i] as int == s[i] as int + 32
  {
    seq(|s|, i requires 0 <= i < |s| => LowerChar(s[i]))
  }

  /** The send path a media file takes, by its lower-cased extension. */
  function Classify(path: string): MediaKind {
    var ext := Lower(Extension(path));
    if ext in ImageExtensions then Image
    else if ext in DocumentExtensions then Document
    else Unsupported
  }

  /** A send event that carries the payload along the path media.py chooses
      for it: the text send when there is no media file, otherwise the image
      or document send that the file's classification selects, with the
      message as caption. */
  predicate FollowsRoute(e: Event, body: string, media: string) {
    match e
    case SendText(_, b) => media == [] && b == body
    case SendImage(_, p, c, w) =>
      media != [] && Classify(media) == Image && p == media && c == body && w == ImageWaitSeconds
    case SendDocument(_, p, c) =>
      media != [] && Classify(media) == Document && p == media && c == body
    case _ => false
  }

  /** One call into the collaborator, followed by the failure log when it raises. */
  function Attempt(call: Event, raises: bool): (r: seq<Event>)
    requires IsSend(call)
    ensures Count(r, IsSend) == 1 && r[0] == call
    ensures SendFailed(call.phone) in r <==> raises
    ensures Count(r, IsPause) == 0 && Count(r, IsSkip) == 0
    ensures Recipients(r) == [call.phone] && PacedFrom(r, false)
  {
    if raises then
      var r := [call, SendFailed(call.phone)];
      assert r[1..] == [SendFailed(call.phone)] && r[1..][1..] == [];
      assert PacedFrom(r[1..], true);
      r
    else [call]
  }

  /** The events of one call of the per-contact send. mediaExists is whether
      the media file exists at that moment; raises is whether the
      collaborator's send raises. */
  function SendMessage(phone: string, body: string, media: string, mediaExists: bool, raises: bool): (r: seq<Event>)
    ensures Count(r, IsSend) <= 1
    ensures Count(r, IsSend) == 1 <==> media == [] || (mediaExists && Classify(media) != Unsupported)
    ensures forall i :: 0 <= i < |r| && IsSend(r[i]) ==> i == 0 && r[i].phone == phone && FollowsRoute(r[i], body, media)
    ensures media != [] && !mediaExists ==> r == [Error(MediaNotFound)]
    ensures SendFailed(phone) in r <==> raises && Count(r, IsSend) == 1
    ensures Count(r, IsPause) == 0 && Count(r, IsSkip) == 0
    ensures Recipients(r) == if Count(r, IsSend) == 1 then [phone] else []
    ensures PacedFrom(r, false)
  {
    if media != [] then
      if !mediaExists then [Error(MediaNotFound)]
      else match Classify(media)
        case Image => Attempt(SendImage(phone, media, body, ImageWaitSeconds), raises)
        case Document => Attempt(SendDocument(phone, media, body), raises)
        case Unsupported => [Error(UnsupportedMediaFormat)]
    else Attempt(SendText(phone, body), raises)
  }

  // ---------------------------------------------------------------------------
  // Properties of extension classification

  /** A character that does not occur in b has the same last position in
      a + b as in a. */
  lemma LastIndexOfAppend(a: string, b: string, c: char)
    requires forall i :: 0 <= i < |b| ==> b[i] != c
    ensures LastIndexOf(a + b, c) == LastIndexOf(a, c)
  {
    var i := LastIndexOf(a, c);
    var s := a + b;
    forall j | i < j < |s| ensures s[j] != c {
      if j < |a| {
        assert s[j] == a[j];
      } else {
        assert s[j] == b[j - |a|];
      }
    }
    if i >= 0 {
      assert s[i] == a[i];
    }
    LastIndexUnique(s, c, i);
  }

  /** An extension's leading dot is the last dot of a path it ends. */
  lemma LastDotStartsExtension(stem: string, ext: string)
    requires |ext| > 0 && ext[0] == '.'
    requires forall i :: 0 < i < |ext| ==> ext[i] != '.'
    ensures LastIndexOf(stem + ext, '.') == |stem|
  {
    var n := |stem|;
    LastIndexOfAppend(stem + ext[..1], ext[1..], '.');
    assert stem + ext[..1] + ext[1..] == stem + ext;
    assert (stem + ext[..1])[n] == '.';
    LastIndexUnique(stem + ext[..1], '.', n);
  }

  lemma HasNonDotAppend(a: string, b: string, lo: nat, hi: nat)
    requires lo <= hi <= |a| && HasNonDot(a, lo, hi)
    ensures HasNonDot(a + b, lo, hi)
  {
    var j :| lo <= j < hi && a[j] != '.';
    assert (a + b)[j] == a[j];
  }

  /** Appending an extension to a path whose final component has a character
      other than '.' makes it the extension of the path. */
  lemma ExtensionOfJoin(stem: string, ext: string)
    requires HasNonDot(stem, LastIndexOf(stem, '/') + 1, |stem|)
    requires |ext| > 0 && ext[0] == '.'
    requires forall i :: 0 < i < |ext| ==> ext[i] != '.' && ext[i] != '/'
    ensures Extension(stem + ext) == ext
  {
    var path := stem + ext;
    assert LastIndexOf(path, '.') == |stem| by {
      LastDotStartsExtension(stem, ext);
    }
    assert LastIndexOf(path, '/') == LastIndexOf(stem, '/') by {
      LastIndexOfAppend(stem, ext, '/');
    }
    assert HasNonDot(path, LastIndexOf(stem, '/') + 1, |stem|) by {
      HasNonDotAppend(stem, ext, LastIndexOf(stem, '/') + 1, |stem|);
    }
    assert path[|stem|..] == ext;
  }

  /** A final path component made of one or more dots followed by a name
      without dots has no extension: its leading dots do not start one. */
  lemma LeadingDotsNoExtension(dir: string, dots: string, name: string)
    requires dir == [] || dir[|dir| - 1] == '/'
    requires |dots| > 0 && forall i :: 0 <= i < |dots| ==> dots[i] == '.'
    requires forall i :: 0 <= i < |name| ==> name[i] != '.' && name[i] != '/'
    ensures Extension(dir + dots + name) == []
  {
    var path := dir + dots + name;
    var a := |dir|;
    var b := a + |dots|;
    assert LastIndexOf(path, '.') == b - 1 by {
      forall j | b - 1 < j < |path| ensures path[j] != '.' {
        assert path[j] == name[j - b];
      }
      assert path[b - 1] == dots[|dots| - 1];
      LastIndexUnique(path, '.', b - 1);
    }
    assert LastIndexOf(path, '/') == a - 1 by {
      forall j | a - 1 < j < |path| ensures path[j] != '/' {
        if j < b {
          assert path[j] == dots[j - a];
        } else {
          assert path[j] == name[j - b];
        }
      }
      if a > 0 {
        assert path[a - 1] == dir[a - 1];
      }
      LastIndexUnique(path, '/', a - 1);
    }
    assert !HasNonDot(path, a, b - 1) by {
      forall j | a <= j < b - 1 ensures path[j] == '.' {
        assert path[j] == dots[j - a];
      }
    }
  }

  /** Lower-casing keeps dots and slashes where they are. */
  lemma {:induction false} LastIndexOfLower(s: string, c: char)
    requires c == '.' || c == '/'
    ensures LastIndexOf(Lower(s), c) == LastIndexOf(s, c)
  {
    var i := LastIndexOf(s, c);
    var l := Lower(s);
    forall j | i < j < |l| ensures l[j] != c {
      assert s[j] != c;
    }
    LastIndexUnique(l, c, i);
  }

  /** Taking the extension and lower-casing commute. */
  lemma ExtensionOfLower(path: string)
    ensures Extension(Lower(path)) == Lower(Extension(path))
  {
    var l := Lower(path);
    LastIndexOfLower(path, '/');
    LastIndexOfLower(path, '.');
    var sep := LastIndexOf(path, '/');
    var dot := LastIndexOf(path, '.');
    if sep < dot {
      assert HasNonDot(l, sep + 1, dot) == HasNonDot(path, sep + 1, dot) by {
        if HasNonDot(path, sep + 1, dot) {
          var j :| sep + 1 <= j < dot && path[j] != '.';
          assert l[j] != '.';
        }
        if HasNonDot(l, sep + 1, dot) {
          var j :| sep + 1 <= j < dot && l[j] != '.';
          assert path[j] != '.';
        }
      }
      assert l[dot..] == Lower(path[dot..]);
    }
  }

  /** Extension matching ignores case: two paths that lower-case alike take
      the same send path. */
  lemma ClassifyIgnoresCase(p: string, q: string)
    requires Lower(p) == Lower(q)
    ensures Classify(p) == Classify(q)
  {
    ExtensionOfLower(p);
    ExtensionOfLower(q);
  }

  /** A dot followed by characters that are neither '.' nor '/'. */
  predicate ExtensionShaped(e: string) {
    |e| > 0 && e[0] == '.' && forall i :: 0 < i < |e| ==> e[i] != '.' && e[i] != '/'
  }

  /** Lower-casing leaves dots and slashes alone, so a text lower-cases to
      something shaped like an extension only if it is shaped like one. */
  lemma ExtensionShapeOfLower(e: string)
    requires ExtensionShaped(Lower(e))
    ensures ExtensionShaped(e)
  {
    var l := Lower(e);
    assert e[0] == '.' by {
      assert LowerChar(e[0]) == '.';
    }
    forall i | 0 < i < |e| ensures e[i] != '.' && e[i] != '/' {
      assert LowerChar(e[i]) == l[i];
    }
  }

  /** Every text that lower-cases to one of the five known extensions is
      shaped like an extension. */
  lemma KnownExtensionShaped(ext: string)
    requires Lower(ext) in ImageExtensions + DocumentExtensions
    ensures ExtensionShaped(ext)
  {
    var l := Lower(ext);
    assert ExtensionShaped(l) by {
      assert l == ".jpg" || l == ".jpeg" || l == ".png" || l == ".pdf" || l == ".docx";
    }
    ExtensionShapeOfLower(ext);
  }

  /** A path whose final component has a character other than '.' before an
      extension .jpg, .jpeg or .png, in any case, goes to the image send. */
  lemma ImageExtensionRoutesToImage(stem: string, ext: string)
    requires HasNonDot(stem, LastIndexOf(stem, '/') + 1, |stem|)
    requires Lower(ext) in ImageExtensions
    ensures Classify(stem + ext) == Image
  {
    assert Extension(stem + ext) == ext by {
      KnownExtensionShaped(ext);
      ExtensionOfJoin(stem, ext);
    }
  }

  /** The same holds for .pdf and .docx and the document send. */
  lemma DocumentExtensionRoutesToDocument(stem: string, ext: string)
    requires HasNonDot(stem, LastIndexOf(stem, '/') + 1, |stem|)
    requires Lower(ext) in DocumentExtensions
    ensures Classify(stem + ext) == Document
  {
    assert Extension(stem + ext) == ext by {
      KnownExtensionShaped(ext);
      ExtensionOfJoin(stem, ext);
    }
    DocumentExtensionIsDocument(stem + ext);
  }

  /** A document extension is never mistaken for an image one. */
  lemma DocumentExtensionIsDocument(path: string)
    requires Lower(Extension(path)) in DocumentExtensions
    ensures Classify(path) == Document
  {
    var l := Lower(Extension(path));
    assert l !in ImageExtensions by {
      assert l == ".pdf" || l == ".docx";
    }
  }

  /** Two texts that differ at most in the case of ASCII letters lower-case alike. */
  lemma LowerIgnoresLetterCase(p: string, q: string)
    requires |p| == |q|
    requires forall i :: 0 <= i < |p| ==>
      p[i] == q[i] || ('A' <= p[i] <= 'Z' && q[i] as int == p[i] as int + 32)
                    || ('A' <= q[i] <= 'Z' && p[i] as int == q[i] as int + 32)
    ensures Lower(p) == Lower(q)
  {
  }

  /** Any other extension after such a component is refused. */
  lemma OtherExtensionUnsupported(stem: string, ext: string)
    requires HasNonDot(stem, LastIndexOf(stem, '/') + 1, |stem|)
    requires |ext| > 0 && ext[0] == '.'
    requires forall i :: 0 < i < |ext| ==> ext[i] != '.' && ext[i] != '/'
    requires Lower(ext) !in ImageExtensions && Lower(ext) !in DocumentExtensions
    ensures Classify(stem + ext) == Unsupported
  {
    ExtensionOfJoin(stem, ext);
  }

  /** A file whose name is only a dot and an extension has no extension, so it
      is refused even when that looks like '.png'. */
  lemma HiddenFileUnsupported()
    ensures Extension("media/.png") == []
    ensures Classify("media/.png") == Unsupported
  {
    var p := "media/.png";
    LastIndexUnique(p, '/', 5);
    LastIndexUnique(p, '.', 6);
    assert !HasNonDot(p, 6, 6);
  }

  // ---------------------------------------------------------------------------
  // Properties of one dispatch

  /** With no media file, the contact gets exactly one text send carrying the message. */
  lemma TextWithoutMedia(phone: string, body: string, raises: bool, mediaExists: bool)
    ensures SendMessage(phone, body, [], mediaExists, raises)[0] == SendText(phone, body)
    ensures Count(SendMessage(phone, body, [], mediaExists, raises), IsSend) == 1
  {
  }

  /** A missing media file is reported before the extension is looked at:
      even a file with an unsupported extension yields MediaNotFound. */
  lemma ExistenceCheckedFirst(phone: string, body: string, media: string, raises: bool)
    requires media != [] && Classify(media) == Unsupported
    ensures SendMessage(phone, body, media, false, raises) == [Error(MediaNotFound)]
    ensures SendMessage(phone, body, media, true, raises) == [Error(UnsupportedMediaFormat)]
  {
  }
}
