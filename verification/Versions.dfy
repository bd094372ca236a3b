// Release images, OCP versions and Kubernetes versions: discovery (what is advertised) and
// resolution (what can be created), and how far the two agree.
module Versions {
  import opened Ordering
  import opened Wrappers

  type Matrix = map<string, string>  // OCP minor version to Kubernetes minor version

  const DEFAULT: Matrix := map[
    "4.14" := "1.27", "4.15" := "1.28", "4.16" := "1.29", "4.17" := "1.30",
    "4.18" := "1.31", "4.19" := "1.32", "4.20" := "1.33", "4.21" := "1.34"]

  // ---- ExtractOCPVersion ------------------------------------------------------------

  function LastIndex(s: string, c: char): (i: int)
    ensures -1 <= i < |s|
    ensures i >= 0 ==> s[i] == c
    ensures forall j :: i < j < |s| ==> s[j] != c
  {
    if s == [] then -1
    else if s[|s|-1] == c then |s| - 1
    else LastIndex(s[..|s|-1], c)
  }

  function FirstIndex(s: string, c: char): (i: int)
    ensures -1 <= i < |s|
    ensures i >= 0 ==> s[i] == c && forall j :: 0 <= j < i ==> s[j] != c
    ensures i < 0 ==> c !in s
  {
    if s == [] then -1
    else if s[0] == c then 0
    else
      var i := FirstIndex(s[1..], c);
      assert forall j :: 1 <= j < |s| ==> s[j] == s[1..][j-1];
      if i < 0 then -1 else i + 1
  }

  /** At most n pieces; the last one keeps any further separators. */
  function SplitN(s: string, sep: char, n: nat): (parts: seq<string>)
    requires n > 0
    ensures parts != []
    decreases n
  {
    var i := FirstIndex(s, sep);
    if n == 1 || i < 0 then [s] else [s[..i]] + SplitN(s[i+1..], sep, n - 1)
  }

  function ExtractOCPVersion(image: string): string {
    var colon := LastIndex(image, ':');
    if colon < 0 then "" else MinorOfTag(image[colon+1..])
  }

  function MinorOfTag(tag: string): string {
    var parts := SplitN(tag, '.', 3);
    if |parts| < 2 then "" else parts[0] + "." + parts[1]
  }

  /** `major.minor`: one dot, no colon. */
  ghost predicate IsMinor(v: string) {
    exists a, b :: MinorParts(v, a, b)
  }

  ghost predicate MinorParts(v: string, a: string, b: string) {
    v == a + "." + b && '.' !in a && '.' !in b && ':' !in a && ':' !in b
  }

  /** The first of several pieces: no dot, and no character the string did not have. */
  lemma FirstPiece(s: string, n: nat)
    requires n > 1
    ensures var p := SplitN(s, '.', n)[0]; '.' !in p && (':' !in s ==> ':' !in p)
  {
    var i := FirstIndex(s, '.');
    if i >= 0 {
      assert forall j :: 0 <= j < i ==> s[..i][j] == s[j];
    }
  }

  lemma NoneAfterLast(s: string, c: char, i: int)
    requires i == LastIndex(s, c)
    ensures c !in s[i+1..]
  {
  }

  lemma TagGivesMinor(tag: string)
    requires ':' !in tag
    ensures MinorOfTag(tag) == "" || IsMinor(MinorOfTag(tag))
  {
    var parts := SplitN(tag, '.', 3);
    if |parts| >= 2 {
      var rest := tag[FirstIndex(tag, '.')+1..];
      FirstPiece(tag, 3);
      FirstPiece(rest, 2);
      assert parts[1] == SplitN(rest, '.', 2)[0];
      assert MinorParts(parts[0] + "." + parts[1], parts[0], parts[1]);
    }
  }

  lemma ExtractedIsMinor(image: string)
    ensures var v := ExtractOCPVersion(image); v == "" || IsMinor(v)
  {
    var colon := LastIndex(image, ':');
    NoneAfterLast(image, ':', colon);
    TagGivesMinor(image[colon+1..]);
  }

  lemma FirstIndexAfter(a: string, c: char, rest: string)
    requires c !in a
    ensures FirstIndex(a + [c] + rest, c) == |a|
  {
    var s := a + [c] + rest;
    assert s[|a|] == c && c in s;
    assert forall j :: 0 <= j < |a| ==> s[j] == a[j];
  }

  lemma {:induction false} LastIndexBefore(prefix: string, c: char, rest: string)
    requires c !in rest
    ensures LastIndex(prefix + [c] + rest, c) == |prefix|
    decreases |rest|
  {
    var s := prefix + [c] + rest;
    if rest != [] {
      var shorter := rest[..|rest|-1];
      LastIndexBefore(prefix, c, shorter);
      assert s[..|s|-1] == prefix + [c] + shorter;
      assert s[|s|-1] == rest[|rest|-1];
    }
  }

  /** A patch suffix, if any, stays out of the second component. */
  lemma SplitPatch(b: string, rest: string)
    requires '.' !in b && (rest == "" || rest[0] == '.')
    ensures SplitN(b + rest, '.', 2)[0] == b
  {
    if rest == "" {
      assert b + rest == b;
    } else {
      assert rest == ['.'] + rest[1..];
      assert b + rest == b + ['.'] + rest[1..];
      FirstIndexAfter(b, '.', rest[1..]);
      assert (b + rest)[..|b|] == b;
    }
  }

  lemma SplitTag(a: string, b: string, rest: string)
    requires '.' !in a && '.' !in b && (rest == "" || rest[0] == '.')
    ensures var parts := SplitN(a + "." + b + rest, '.', 3);
            |parts| >= 2 && parts[0] == a && parts[1] == b
  {
    var tag := a + "." + b + rest;
    assert tag == a + ['.'] + (b + rest);
    FirstIndexAfter(a, '.', b + rest);
    assert tag[..|a|] == a && tag[|a|+1..] == b + rest;
    SplitPatch(b, rest);
  }

  /** Any tag `major.minor`, or `major.minor.anything`, yields its first two components. */
  lemma ExtractTag(prefix: string, v: string, rest: string)
    requires IsMinor(v) && ':' !in rest && (rest == "" || rest[0] == '.')
    ensures ExtractOCPVersion(prefix + ":" + (v + rest)) == v
  {
    var a, b :| MinorParts(v, a, b);
    var image := prefix + ":" + (v + rest);
    LastIndexBefore(prefix, ':', v + rest);
    assert image[|prefix|+1..] == v + rest;
    SplitTag(a, b, rest);
  }

  /** The image's last colon is followed by this version, alone or up to another dot. */
  ghost predicate Tagged(image: string, v: string) {
    exists prefix, rest :: TaggedAs(image, prefix, v, rest)
  }

  ghost predicate TaggedAs(image: string, prefix: string, v: string, rest: string) {
    image == prefix + ":" + (v + rest) && IsMinor(v) && ':' !in rest && (rest == "" || rest[0] == '.')
  }

  lemma SplitOnce(s: string, sep: char, n: nat, i: int)
    requires n > 1 && i == FirstIndex(s, sep)
    ensures i < 0 ==> SplitN(s, sep, n) == [s]
    ensures i >= 0 ==> SplitN(s, sep, n) == [s[..i]] + SplitN(s[i+1..], sep, n - 1)
  {
  }

  /** The first piece, and what is left after it. */
  lemma FirstPieceIsPrefix(s: string, sep: char, n: nat) returns (rest: string)
    requires n > 1
    ensures s == SplitN(s, sep, n)[0] + rest && (rest == "" || rest[0] == sep)
  {
    var k := FirstIndex(s, sep);
    SplitOnce(s, sep, n, k);
    rest := if k < 0 then "" else s[k..];
  }

  lemma Reassemble(s: string, i: nat, second: string, rest: string)
    requires i < |s| && s[i+1..] == second + rest
    ensures s == s[..i] + [s[i]] + second + rest
  {
    assert s == s[..i] + [s[i]] + s[i+1..];
  }

  /** Of two pieces or more: the first, the separator, the second, and what is left. */
  lemma TwoPiecesArePrefix(s: string, sep: char, n: nat, parts: seq<string>) returns (rest: string)
    requires n > 2 && parts == SplitN(s, sep, n) && |parts| >= 2
    ensures s == parts[0] + [sep] + parts[1] + rest && (rest == "" || rest[0] == sep)
  {
    var i := FirstIndex(s, sep);
    SplitOnce(s, sep, n, i);
    rest := FirstPieceIsPrefix(s[i+1..], sep, n - 1);
    Reassemble(s, i, SplitN(s[i+1..], sep, n - 1)[0], rest);
  }

  /** A tag that yields a version starts with it. */
  lemma TagStartsWithMinor(tag: string) returns (rest: string)
    requires MinorOfTag(tag) != ""
    ensures tag == MinorOfTag(tag) + rest && (rest == "" || rest[0] == '.')
  {
    rest := TwoPiecesArePrefix(tag, '.', 3, SplitN(tag, '.', 3));
  }

  /** What is extracted from an image, whatever it looks like. */
  lemma ExtractedIff(image: string, v: string)
    requires v != ""
    ensures ExtractOCPVersion(image) == v <==> Tagged(image, v)
  {
    if ExtractOCPVersion(image) == v {
      var colon := LastIndex(image, ':');
      ExtractedIsMinor(image);
      NoneAfterLast(image, ':', colon);
      TaggedFrom(image, colon, v);
    }
    if Tagged(image, v) {
      var prefix, rest :| TaggedAs(image, prefix, v, rest);
      ExtractTag(prefix, v, rest);
    }
  }

  lemma TaggedFrom(image: string, colon: int, v: string)
    requires 0 <= colon < |image| && image[colon] == ':' && ':' !in image[colon+1..]
    requires MinorOfTag(image[colon+1..]) == v && v != "" && IsMinor(v)
    ensures Tagged(image, v)
  {
    var tag := image[colon+1..];
    var rest := TagStartsWithMinor(tag);
    assert rest == tag[|v|..];
    assert ':' !in rest by {
      assert forall j :: 0 <= j < |rest| ==> rest[j] == tag[|v| + j];
    }
    assert image == image[..colon] + ":" + (v + rest);
    assert TaggedAs(image, image[..colon], v, rest);
  }

  /** Without a colon, or without a dot after the last one, nothing is extracted. */
  lemma NoMinorNoVersion(prefix: string, tag: string)
    requires ':' !in tag && '.' !in tag
    ensures ExtractOCPVersion(prefix + ":" + tag) == "" && ExtractOCPVersion(tag) == ""
  {
    LastIndexBefore(prefix, ':', tag);
    assert (prefix + [':'] + tag)[|prefix|+1..] == tag;
    assert FirstIndex(tag, '.') == -1;
  }

  /** Some listed image can carry this OCP version. */
  ghost predicate Extractable(ocp: string) {
    exists image :: image != "" && ExtractOCPVersion(image) == ocp
  }

  lemma ExtractableIff(ocp: string)
    ensures Extractable(ocp) <==> ocp == "" || IsMinor(ocp)
  {
    if Extractable(ocp) {
      var image :| image != "" && ExtractOCPVersion(image) == ocp;
      ExtractedIsMinor(image);
    }
    if ocp == "" {
      assert LastIndex("x", ':') == -1;
      assert ExtractOCPVersion("x") == ocp;
    } else if IsMinor(ocp) {
      ExtractTag("", ocp, "");
      assert "" + ":" + (ocp + "") != "";
    }
  }

  // ---- DiscoverVersions ----------------------------------------------------------------

  const ID: string -> string := s => s

  function Advertised(m: Matrix, images: seq<string>): set<string> {
    set image | image in images && image != "" && ExtractOCPVersion(image) in m :: m[ExtractOCPVersion(image)]
  }

  /** The one list that may be advertised: ascending, without duplicates, and complete. */
  ghost predicate Discovered(m: Matrix, images: seq<string>, versions: seq<string>) {
    StrictlyAscending(versions, ID) && forall v :: v in versions <==> v in Advertised(m, images)
  }

  /** That list, built image by image. */
  function Discover(m: Matrix, images: seq<string>): seq<string> {
    if images == [] then []
    else
      var versions := Discover(m, images[..|images|-1]);
      var image := images[|images|-1];
      var ocp := ExtractOCPVersion(image);
      if image == "" || ocp !in m || m[ocp] in versions then versions
      else Insert(m[ocp], versions, ID)
  }

  lemma InsertNew(v: string, versions: seq<string>)
    requires v !in versions && StrictlyAscending(versions, ID)
    ensures StrictlyAscending(Insert(v, versions, ID), ID)
    ensures forall x :: x in Insert(v, versions, ID) <==> x == v || x in versions
  {
    forall i, j | 0 <= i < j < |versions| ensures !Less(ID(versions[j]), ID(versions[i])) {
      LessIsTotal(versions[i], versions[j]);
    }
    InsertAscends(v, versions, ID);
    var all := [v] + versions;
    assert DistinctKeys(all, ID) by {
      forall i, j | 0 <= i < j < |versions| ensures versions[i] != versions[j] {
        LessIsTotal(versions[i], versions[j]);
      }
    }
    assert multiset(all) == multiset([v]) + multiset(versions);
    PermutedKeepsDistinct(all, Insert(v, versions, ID), ID);
    DistinctAscendingIsStrict(Insert(v, versions, ID), ID);
    SameElements(all, Insert(v, versions, ID));
  }

  lemma {:induction false} DiscoverIsDiscovered(m: Matrix, images: seq<string>)
    ensures Discovered(m, images, Discover(m, images))
  {
    if images != [] {
      var init, image := images[..|images|-1], images[|images|-1];
      DiscoverIsDiscovered(m, init);
      assert images == init + [image];
      var versions := Discover(m, init);
      var ocp := ExtractOCPVersion(image);
      if image != "" && ocp in m {
        assert Advertised(m, images) == Advertised(m, init) + {m[ocp]};
        if m[ocp] !in versions {
          InsertNew(m[ocp], versions);
        }
      } else {
        assert Advertised(m, images) == Advertised(m, init);
      }
    }
  }

  method DiscoverVersions(m: Matrix, listing: Option<seq<string>>) returns (r: Result<seq<string>, Error>)
    ensures r == if listing.None? then Err(Internal) else Ok(Discover(m, listing.value))
    ensures r.Ok? ==> Discovered(m, listing.value, r.value)
    ensures r.Ok? ==> forall i, j :: 0 <= i < j < |r.value| ==> Less(r.value[i], r.value[j])
  {
    if listing.None? {
      return Err(Internal);
    }
    var seen := SeenVersions(m, listing.value);
    var versions := [];
    var left := seen;
    while left != {}
      invariant left <= seen
      invariant forall v :: v in versions <==> v in seen - left
      invariant DistinctKeys(versions, ID)
      decreases left
    {
      var v :| v in left;
      assert v !in versions;
      versions := versions + [v];
      left := left - {v};
    }
    SortAscends(versions, ID);
    ghost var before := versions;
    versions := Sort(versions, ID);
    PermutedKeepsDistinct(before, versions, ID);
    DistinctAscendingIsStrict(versions, ID);
    SameElements(before, versions);
    DiscoverIsDiscovered(m, listing.value);
    StrictOrderIsUnique(versions, Discover(m, listing.value), ID);
    r := Ok(versions);
  }

  method SeenVersions(m: Matrix, images: seq<string>) returns (seen: set<string>)
    ensures seen == Advertised(m, images)
  {
    seen := {};
    for i := 0 to |images|
      invariant seen == Advertised(m, images[..i])
    {
      assert images[..i+1] == images[..i] + [images[i]];
      if images[i] != "" {
        var ocp := ExtractOCPVersion(images[i]);
        if ocp in m {
          seen := seen + {m[ocp]};
        }
      }
    }
    assert images[..|images|] == images;
  }

  /** Lists advertised at different times are equal exactly when the same versions are on offer. */
  lemma ListsEqualIffSameVersions(m: Matrix, images1: seq<string>, images2: seq<string>,
                                  v1: seq<string>, v2: seq<string>)
    requires Discovered(m, images1, v1) && Discovered(m, images2, v2)
    ensures v1 == v2 <==> Advertised(m, images1) == Advertised(m, images2)
  {
    assert Advertised(m, images1) == Advertised(m, images2) || exists v :: (v in v1) != (v in v2);
    if Advertised(m, images1) == Advertised(m, images2) {
      StrictOrderIsUnique(v1, v2, ID);
    }
  }

  // ---- Resolve ------------------------------------------------------------------------------

  /** The order in which a map is iterated: any listing of its keys. */
  ghost predicate Enumerates(order: seq<string>, m: Matrix) {
    forall k :: k in order <==> k in m
  }

  function FindOcp(m: Matrix, order: seq<string>, k8s: string): (r: Option<string>)
    ensures r.Some? ==> r.value in order && r.value in m && m[r.value] == k8s
    ensures r.None? ==> forall k :: k in order && k in m ==> m[k] != k8s
  {
    if order == [] then None
    else if order[0] in m && m[order[0]] == k8s then Some(order[0])
    else FindOcp(m, order[1..], k8s)
  }

  function FindImage(images: seq<string>, ocp: string): (r: Option<string>)
    ensures r.Some? ==> r.value in images && r.value != "" && ExtractOCPVersion(r.value) == ocp
    ensures r.None? ==> forall i :: i in images && i != "" ==> ExtractOCPVersion(i) != ocp
  {
    if images == [] then None
    else if images[0] != "" && ExtractOCPVersion(images[0]) == ocp then Some(images[0])
    else FindImage(images[1..], ocp)
  }

  function Resolve(m: Matrix, order: seq<string>, listing: Option<seq<string>>, k8s: string): Result<string, Error> {
    var ocp := FindOcp(m, order, k8s);
    if ocp.None? then Err(Unprocessable)
    else if listing.None? then Err(Internal)
    else
      var image := FindImage(listing.value, ocp.value);
      if image.None? then Err(Unprocessable) else Ok(image.value)
  }

  /** Key i of the order is the first that the matrix maps to this version. */
  ghost predicate FirstKey(m: Matrix, order: seq<string>, k8s: string, i: int) {
    && 0 <= i < |order| && order[i] in m && m[order[i]] == k8s
    && forall j :: 0 <= j < i ==> order[j] !in m || m[order[j]] != k8s
  }

  /** Image p of the catalogue is the first that carries this OCP version. */
  ghost predicate FirstImage(images: seq<string>, ocp: string, p: int) {
    && 0 <= p < |images| && images[p] != "" && ExtractOCPVersion(images[p]) == ocp
    && forall q :: 0 <= q < p ==> images[q] == "" || ExtractOCPVersion(images[q]) != ocp
  }

  lemma {:induction false} FindOcpIsFirst(m: Matrix, order: seq<string>, k8s: string)
    ensures forall i :: FirstKey(m, order, k8s, i) ==> FindOcp(m, order, k8s) == Some(order[i])
    ensures FindOcp(m, order, k8s).Some? ==> exists i :: FirstKey(m, order, k8s, i)
  {
    if order != [] {
      FindOcpIsFirst(m, order[1..], k8s);
      if order[0] in m && m[order[0]] == k8s {
        assert FirstKey(m, order, k8s, 0);
      } else {
        forall i ensures FirstKey(m, order, k8s, i + 1) <==> FirstKey(m, order[1..], k8s, i) {
          assert forall j :: 1 <= j < |order| ==> order[j] == order[1..][j-1];
        }
        assert forall i :: FirstKey(m, order, k8s, i) ==> FirstKey(m, order[1..], k8s, i - 1);
      }
    }
  }

  lemma {:induction false} FindImagePosition(images: seq<string>, ocp: string) returns (p: nat)
    requires FindImage(images, ocp).Some?
    ensures FirstImage(images, ocp, p) && images[p] == FindImage(images, ocp).value
  {
    if images[0] != "" && ExtractOCPVersion(images[0]) == ocp {
      p := 0;
    } else {
      var rest := images[1..];
      p := FindImagePosition(rest, ocp);
      p := p + 1;
      forall q | 0 <= q < p ensures images[q] == "" || ExtractOCPVersion(images[q]) != ocp {
        assert q > 0 ==> images[q] == rest[q-1];
      }
    }
  }

  lemma FindImageIsFirst(images: seq<string>, ocp: string)
    ensures forall p :: FirstImage(images, ocp, p) ==> FindImage(images, ocp) == Some(images[p])
    ensures FindImage(images, ocp).Some? ==> exists p :: FirstImage(images, ocp, p)
  {
    if FindImage(images, ocp).Some? {
      var p := FindImagePosition(images, ocp);
      forall q | FirstImage(images, ocp, q) ensures q == p {
        OnlyOneFirst(images, ocp, p, q);
      }
    }
  }

  lemma OnlyOneFirst(images: seq<string>, ocp: string, p: int, q: int)
    requires FirstImage(images, ocp, p) && FirstImage(images, ocp, q)
    ensures p == q
  {
  }

  /** The matrix, read in this order, has the version, and the catalogue an image for it. */
  ghost predicate Offers(m: Matrix, order: seq<string>, images: seq<string>, k8s: string, image: string) {
    exists i, p :: FirstKey(m, order, k8s, i) && FirstImage(images, order[i], p) && image == images[p]
  }

  /** What resolves, and why something does not. */
  lemma ResolveIff(m: Matrix, order: seq<string>, listing: Option<seq<string>>, k8s: string)
    ensures forall image :: Resolve(m, order, listing, k8s) == Ok(image) <==>
              listing.Some? && Offers(m, order, listing.value, k8s, image)
    ensures Resolve(m, order, listing, k8s) == Err(Internal) <==>
              listing.None? && exists i :: FirstKey(m, order, k8s, i)
    ensures Resolve(m, order, listing, k8s) == Err(Unprocessable) <==>
              || (forall i :: !FirstKey(m, order, k8s, i))
              || (listing.Some? && forall image :: !Offers(m, order, listing.value, k8s, image))
    ensures Resolve(m, order, listing, k8s).Err? ==>
              Resolve(m, order, listing, k8s).error in {Internal, Unprocessable}
  {
    FindOcpIsFirst(m, order, k8s);
    var ocp := FindOcp(m, order, k8s);
    if ocp.Some? && listing.Some? {
      FindImageIsFirst(listing.value, ocp.value);
      var i :| FirstKey(m, order, k8s, i);
      var found := FindImage(listing.value, ocp.value);
      if found.Some? {
        var p :| FirstImage(listing.value, ocp.value, p);
        assert Offers(m, order, listing.value, k8s, listing.value[p]);
      }
    }
  }

  function Effective(configured: Matrix): Matrix {
    if |configured| == 0 then DEFAULT else configured
  }

  function ResolveReleaseImage(hint: Option<string>, configured: Matrix, order: seq<string>,
                               listing: Option<seq<string>>, k8s: string): Result<string, Error> {
    if hint.Some? then Ok(hint.value) else Resolve(Effective(configured), order, listing, k8s)
  }

  function ReleaseImageToK8sVersion(image: string, m: Matrix): string {
    var ocp := ExtractOCPVersion(image);
    if ocp == "" then "" else if ocp in m then m[ocp] else ""
  }

  /** An image is reported with the version its tag stands for, if the matrix has it. */
  lemma ReportedIff(image: string, m: Matrix, k8s: string)
    requires k8s != ""
    ensures ReleaseImageToK8sVersion(image, m) == k8s <==>
              exists ocp :: ocp in m && m[ocp] == k8s && Tagged(image, ocp)
  {
    var ocp := ExtractOCPVersion(image);
    if ocp != "" {
      ExtractedIff(image, ocp);
    }
    forall v | v in m && Tagged(image, v) ensures ocp == v {
      var a, rest :| TaggedAs(image, a, v, rest);
      ExtractTag(a, v, rest);
    }
  }

  // ---- advertised and creatable ---------------------------------------------------------------

  /** For every catalogue and iteration order, a version is advertised iff it resolves. */
  ghost predicate AdvertisedIsCreatable(m: Matrix) {
    forall images, order, v :: Enumerates(order, m) ==>
      (v in Advertised(m, images) <==> Resolve(m, order, Some(images), v).Ok?)
  }

  /** No Kubernetes version is shared by an OCP version that images can carry. */
  ghost predicate Unambiguous(m: Matrix) {
    forall k1, k2 :: k1 in m && k2 in m && k1 != k2 && m[k1] == m[k2] ==> k1 != "" && !IsMinor(k1)
  }

  ghost predicate Injective(m: Matrix) {
    forall k1, k2 :: k1 in m && k2 in m && m[k1] == m[k2] ==> k1 == k2
  }

  lemma {:induction false} KeysInOrder(s: set<string>) returns (order: seq<string>)
    ensures forall k :: k in order <==> k in s
    decreases s
  {
    if s == {} {
      order := [];
    } else {
      var k :| k in s;
      var rest := KeysInOrder(s - {k});
      order := [k] + rest;
    }
  }

  lemma ResolvedIsAdvertised(m: Matrix, images: seq<string>, order: seq<string>, v: string)
    requires Enumerates(order, m) && Resolve(m, order, Some(images), v).Ok?
    ensures v in Advertised(m, images)
  {
    var image := Resolve(m, order, Some(images), v).value;
    assert m[ExtractOCPVersion(image)] == v;
  }

  lemma UnambiguousResolves(m: Matrix, images: seq<string>, order: seq<string>, v: string)
    requires Unambiguous(m) && Enumerates(order, m) && v in Advertised(m, images)
    ensures Resolve(m, order, Some(images), v).Ok?
  {
    var image :| image in images && image != "" && ExtractOCPVersion(image) in m && m[ExtractOCPVersion(image)] == v;
    ExtractedIsMinor(image);
    var ocp := FindOcp(m, order, v);
    assert ocp == Some(ExtractOCPVersion(image));
  }

  /** A shared version fails for some catalogue and order: exactly one of the two is on offer. */
  lemma AmbiguousFails(m: Matrix, k1: string, k2: string)
    requires k1 in m && k2 in m && k1 != k2 && m[k1] == m[k2] && Extractable(k1)
    ensures !AdvertisedIsCreatable(m)
  {
    var image :| image != "" && ExtractOCPVersion(image) == k1;
    var order := KeysFrom(m, k2);
    assert FindOcp(m, order, m[k1]) == Some(k2);
    OnlyTheOther(m, order, image, k2);
    assert [image][0] == image;
    assert m[k1] in Advertised(m, [image]);
  }

  /** An iteration order that starts with k. */
  lemma KeysFrom(m: Matrix, k: string) returns (order: seq<string>)
    requires k in m
    ensures Enumerates(order, m) && order != [] && order[0] == k
  {
    var rest := KeysInOrder(m.Keys);
    order := [k] + rest;
  }

  lemma OnlyTheOther(m: Matrix, order: seq<string>, image: string, k: string)
    requires k in m && FindOcp(m, order, m[k]) == Some(k) && ExtractOCPVersion(image) != k
    ensures Resolve(m, order, Some([image]), m[k]).Err?
  {
    assert FindImage([image], k).None?;
  }

  /** Advertised equals creatable exactly for the matrices without such a shared version. */
  lemma AdvertisedIsCreatableIff(m: Matrix)
    ensures AdvertisedIsCreatable(m) <==> Unambiguous(m)
  {
    if Unambiguous(m) {
      forall images, order, v | Enumerates(order, m)
        ensures v in Advertised(m, images) <==> Resolve(m, order, Some(images), v).Ok?
      {
        if v in Advertised(m, images) {
          UnambiguousResolves(m, images, order, v);
        }
        if Resolve(m, order, Some(images), v).Ok? {
          ResolvedIsAdvertised(m, images, order, v);
        }
      }
    } else {
      var k1, k2 :| k1 in m && k2 in m && k1 != k2 && m[k1] == m[k2] && !(k1 != "" && !IsMinor(k1));
      ExtractableIff(k1);
      AmbiguousFails(m, k1, k2);
    }
  }

  /**
   * As the service is wired: the discoverer uses the configured matrix, creation the
   * effective one. With a non-empty injective matrix the advertised list is what resolves.
   */
  lemma DiscoveredIsCreatable(configured: Matrix, images: seq<string>, order: seq<string>,
                              versions: seq<string>, v: string)
    requires |configured| > 0 && Injective(configured) && Enumerates(order, configured)
    requires Discovered(configured, images, versions)
    ensures v in versions <==> ResolveReleaseImage(None, configured, order, Some(images), v).Ok?
  {
    AdvertisedIsCreatableIff(configured);
  }

  function TwoDigits(n: nat): string
    requires n < 100
  {
    ['0' + (n / 10) as char, '0' + (n % 10) as char]
  }

  /** OCP 4.x runs Kubernetes 1.(x + 13), for x from 14 to 21 and no other. */
  lemma DefaultSkew(ocp: string)
    ensures ocp in DEFAULT <==> exists x: nat :: 14 <= x <= 21 && ocp == "4." + TwoDigits(x)
    ensures forall x: nat :: 14 <= x <= 21 && ocp == "4." + TwoDigits(x) ==> DEFAULT[ocp] == "1." + TwoDigits(x + 13)
  {
    assert "4." + TwoDigits(14) == "4.14" && "4." + TwoDigits(15) == "4.15";
    assert "4." + TwoDigits(16) == "4.16" && "4." + TwoDigits(17) == "4.17";
    assert "4." + TwoDigits(18) == "4.18" && "4." + TwoDigits(19) == "4.19";
    assert "4." + TwoDigits(20) == "4.20" && "4." + TwoDigits(21) == "4.21";
  }

  lemma DefaultIsInjective()
    ensures Injective(DEFAULT) && "" !in DEFAULT && "" !in DEFAULT.Values
  {
    forall k1, k2 | k1 in DEFAULT && k2 in DEFAULT && DEFAULT[k1] == DEFAULT[k2] ensures k1 == k2 {
      assert DEFAULT[k1][3] == DEFAULT[k2][3];
    }
    forall v | v in DEFAULT.Values ensures v != "" {
      var k :| k in DEFAULT && DEFAULT[k] == v;
    }
  }

  // ---- reading a version back ----------------------------------------------------------------------

  /** Every image resolved for v, under any order and catalogue, is reported as v again. */
  ghost predicate MapsBack(m: Matrix, v: string) {
    forall images, order :: Enumerates(order, m) && Resolve(m, order, Some(images), v).Ok? ==>
      ReleaseImageToK8sVersion(Resolve(m, order, Some(images), v).value, m) == v
  }

  /** It is, unless the matrix gives v to the empty key, which unparseable tags map to. */
  lemma MapsBackIff(m: Matrix, v: string)
    ensures MapsBack(m, v) <==> !("" in m && m[""] == v && v != "")
  {
    if "" in m && m[""] == v && v != "" {
      var order := KeysFrom(m, "");
      assert FindOcp(m, order, v) == Some("");
      assert LastIndex("x", ':') == -1 && ExtractOCPVersion("x") == "";
      assert Resolve(m, order, Some(["x"]), v) == Ok("x");
    } else {
      forall images, order | Enumerates(order, m) && Resolve(m, order, Some(images), v).Ok?
        ensures ReleaseImageToK8sVersion(Resolve(m, order, Some(images), v).value, m) == v
      {
        var image := Resolve(m, order, Some(images), v).value;
        assert m[ExtractOCPVersion(image)] == v;
      }
    }
  }

  // ---- as the service is wired ---------------------------------------------------------------------

  /** For every catalogue and order, what is advertised is what creation resolves. */
  ghost predicate WiredAgrees(configured: Matrix) {
    forall images, order, v :: Enumerates(order, Effective(configured)) ==>
      (v in Advertised(configured, images) <==> ResolveReleaseImage(None, configured, order, Some(images), v).Ok?)
  }

  /** For every catalogue and order, a created cluster is reported with the requested version. */
  ghost predicate WiredMapsBack(configured: Matrix) {
    forall images, order, v ::
      Enumerates(order, Effective(configured)) && ResolveReleaseImage(None, configured, order, Some(images), v).Ok? ==>
      ReleaseImageToK8sVersion(ResolveReleaseImage(None, configured, order, Some(images), v).value, configured) == v
  }

  /** Any version of an unambiguous matrix that an image can carry resolves for some catalogue. */
  lemma MatrixResolves(m: Matrix, k: string) returns (images: seq<string>, order: seq<string>)
    requires k in m && IsMinor(k) && Unambiguous(m)
    ensures Enumerates(order, m) && Resolve(m, order, Some(images), m[k]).Ok?
  {
    ExtractableIff(k);
    var image :| image != "" && ExtractOCPVersion(image) == k;
    images := [image];
    order := KeysInOrder(m.Keys);
    assert image in images;
    assert m[k] in Advertised(m, images);
    UnambiguousResolves(m, images, order, m[k]);
  }

  lemma DefaultResolves() returns (images: seq<string>, order: seq<string>, v: string)
    ensures Enumerates(order, DEFAULT) && Resolve(DEFAULT, order, Some(images), v).Ok? && v != ""
  {
    DefaultIsInjective();
    assert MinorParts("4.17", "4", "17");
    images, order := MatrixResolves(DEFAULT, "4.17");
    v := DEFAULT["4.17"];
  }

  /**
   * Discovery reads the configured matrix, creation the default one in place of an empty one.
   * The two agree exactly for a non-empty unambiguous matrix.
   */
  lemma WiredAgreesIff(configured: Matrix)
    ensures WiredAgrees(configured) <==> |configured| > 0 && Unambiguous(configured)
  {
    if |configured| > 0 {
      assert Effective(configured) == configured;
      AdvertisedIsCreatableIff(configured);
      assert WiredAgrees(configured) <==> AdvertisedIsCreatable(configured);
    } else {
      var images, order, v := DefaultResolves();
      assert configured == map[];
      assert v !in Advertised(configured, images);
      assert ResolveReleaseImage(None, configured, order, Some(images), v).Ok?;
    }
  }

  /** With an empty matrix nothing that resolves is advertised, or reported as the version asked for. */
  lemma EmptyMatrixDisagrees(order: seq<string>, images: seq<string>, versions: seq<string>, v: string)
    requires Enumerates(order, DEFAULT) && Discovered(map[], images, versions)
    requires ResolveReleaseImage(None, map[], order, Some(images), v).Ok?
    ensures v !in versions
    ensures ReleaseImageToK8sVersion(ResolveReleaseImage(None, map[], order, Some(images), v).value, map[]) != v
  {
    DefaultIsInjective();
    var ocp := FindOcp(DEFAULT, order, v).value;
    assert DEFAULT[ocp] in DEFAULT.Values;
  }

  lemma WiredLikeMapsBack(configured: Matrix)
    requires |configured| > 0
    ensures WiredMapsBack(configured) <==> forall v :: MapsBack(configured, v)
  {
    if WiredMapsBack(configured) {
      forall v, images, order | Enumerates(order, configured) && Resolve(configured, order, Some(images), v).Ok?
        ensures ReleaseImageToK8sVersion(Resolve(configured, order, Some(images), v).value, configured) == v
      {
        assert ResolveReleaseImage(None, configured, order, Some(images), v).Ok?;
      }
    }
    if forall v :: MapsBack(configured, v) {
      forall images, order, v
        | Enumerates(order, configured) && ResolveReleaseImage(None, configured, order, Some(images), v).Ok?
        ensures
          ReleaseImageToK8sVersion(ResolveReleaseImage(None, configured, order, Some(images), v).value, configured) == v
      {
        assert MapsBack(configured, v);
      }
    }
  }

  /**
   * Reporting reads the configured matrix as well. It gives every requested version back exactly
   * for a non-empty matrix that gives no version to the empty key.
   */
  lemma WiredMapsBackIff(configured: Matrix)
    ensures WiredMapsBack(configured) <==> |configured| > 0 && ("" in configured ==> configured[""] == "")
  {
    if |configured| > 0 {
      WiredLikeMapsBack(configured);
      forall v ensures MapsBack(configured, v) <==> !("" in configured && configured[""] == v && v != "") {
        MapsBackIff(configured, v);
      }
      if "" in configured {
        assert configured[""] != "" ==> !MapsBack(configured, configured[""]);
      }
    } else {
      var images, order, v := DefaultResolves();
      assert configured == map[];
      var image := ResolveReleaseImage(None, configured, order, Some(images), v);
      assert image.Ok? && ReleaseImageToK8sVersion(image.value, configured) == "";
    }
  }
}
