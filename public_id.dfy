/** The Cloudinary public id inside an image URL, found with the regular
    expression `/\/upload\/(?:v\d+\/)?(.+?)(?:\.[^.]+)?$/` (no flags) and
    its first capture group. The search follows JavaScript's backtracking
    semantics exactly: the leftmost start position where a match exists,
    the optional version segment tried before skipping it, the lazy group
    grown one character at a time, the optional extension tried before the
    end anchor. `.` does not match a line terminator, `[^.]` does, and `$`
    is the end of the input. */
module PublicId {
  import opened Common

  const Upload: string := "/upload/"

  predicate IsLineTerminator(c: char) {
    c == '\n' || c == '\r' || c == '\U{2028}' || c == '\U{2029}'
  }

  /** `\d`: the ASCII digits only. */
  predicate IsDigit(c: char) {
    '0' <= c <= '9'
  }

  predicate NoLineTerminator(t: string) {
    forall j | 0 <= j < |t| :: !IsLineTerminator(t[j])
  }

  /** Length of the run of digits starting at `i` (greedy `\d+`). */
  function DigitsFrom(s: string, i: nat): (n: nat)
    requires i <= |s|
    ensures i + n <= |s|
    ensures forall j | i <= j < i + n :: IsDigit(s[j])
    ensures i + n < |s| ==> !IsDigit(s[i + n])
    decreases |s| - i
  {
    if i < |s| && IsDigit(s[i]) then 1 + DigitsFrom(s, i + 1) else 0
  }

  /** `(?:v\d+\/)` at `i`: where it ends, if it matches. Giving back digits
      cannot help, because a digit is never `/`. */
  function VersionEnd(s: string, i: nat): (r: Option<nat>)
    requires i <= |s|
    ensures r.Some? ==> i + 3 <= r.value <= |s|
  {
    if i < |s| && s[i] == 'v' then
      var n := DigitsFrom(s, i + 1);
      if n > 0 && i + 1 + n < |s| && s[i + 1 + n] == '/' then Some(i + 2 + n) else None
    else None
  }

  /** `\.[^.]+$` matches `t` from index `k`. */
  predicate ExtensionAt(t: string, k: nat) {
    k + 1 < |t| && t[k] == '.' && forall j | k < j < |t| :: t[j] != '.'
  }

  /** `(.+?)(?:\.[^.]+)?$` on `t` with the lazy group already holding `t[..k]`. */
  function LazyFrom(t: string, k: nat): (r: Option<string>)
    requires 1 <= k <= |t| && NoLineTerminator(t[..k - 1])
    ensures r.Some? ==> k <= |r.value| <= |t| && r.value == t[..|r.value|]
    ensures r.Some? ==> NoLineTerminator(r.value)
    decreases |t| - k
  {
    if IsLineTerminator(t[k - 1]) then None
    else
      assert NoLineTerminator(t[..k]) by {
        forall j | 0 <= j < k ensures !IsLineTerminator(t[..k][j]) {
          if j < k - 1 { assert t[..k][j] == t[..k - 1][j]; }
        }
      }
      if ExtensionAt(t, k) then Some(t[..k])
      else if k == |t| then assert t[..k] == t; Some(t)
      else LazyFrom(t, k + 1)
  }

  /** The part of the pattern after the optional version segment. */
  function Tail(t: string): (r: Option<string>)
    ensures r.Some? ==> 1 <= |r.value| <= |t| && r.value == t[..|r.value|]
  {
    if |t| == 0 then None else LazyFrom(t, 1)
  }

  /** The pattern after `/upload/`: with the version segment if the rest
      then matches, else without it. */
  function AfterUpload(rest: string): (r: Option<string>)
    ensures r.Some? ==> |r.value| >= 1
  {
    var v := VersionEnd(rest, 0);
    if v.Some? && Tail(rest[v.value..]).Some? then Tail(rest[v.value..]) else Tail(rest)
  }

  /** The whole pattern anchored at `p`: the capture group if it matches there. */
  function MatchAt(s: string, p: nat): (r: Option<string>)
    requires p <= |s|
    ensures r.Some? ==> OccursAt(s, Upload, p) && |r.value| >= 1
  {
    if OccursAt(s, Upload, p) then AfterUpload(s[p + |Upload|..]) else None
  }

  /** `s.match(re)` from start position `p` on: the leftmost match. */
  function Search(s: string, p: nat): (r: Option<string>)
    requires p <= |s|
    ensures r.Some? ==> exists i | p <= i <= |s| :: OccursAt(s, Upload, i)
    ensures r.Some? ==> |r.value| >= 1
    decreases |s| - p
  {
    var m := MatchAt(s, p);
    if m.Some? then m else if p == |s| then None else Search(s, p + 1)
  }

  /** `extractPublicId` of the upload controller: `match ? match[1] : null`. */
  function ExtractPublicId(url: string): (r: Option<string>)
    ensures r.Some? ==> Includes(url, Upload)
    ensures r.Some? ==> r.value != ""
  {
    Search(url, 0)
  }

  // ---------------------------------------------------------------------
  // What the pattern computes, stated without backtracking

  /** Index of the last `.` in `t`, if any. */
  function LastDot(t: string): (r: Option<nat>)
    ensures r.Some? ==> r.value < |t| && t[r.value] == '.' && forall j | r.value < j < |t| :: t[j] != '.'
    ensures r.None? ==> forall j | 0 <= j < |t| :: t[j] != '.'
  {
    if |t| == 0 then None
    else if t[|t| - 1] == '.' then Some(|t| - 1)
    else LastDot(t[..|t| - 1])
  }

  /** `t` without its final `.ext`, where the extension is non-empty and the
      part before it is non-empty; otherwise `t` itself. */
  function StripExtension(t: string): string {
    var d := LastDot(t);
    if d.Some? && 1 <= d.value && d.value + 1 < |t| then t[..d.value] else t
  }

  lemma {:induction false} LazyFromStrips(t: string, k: nat)
    requires 1 <= k <= |t| && NoLineTerminator(t)
    requires forall j | 1 <= j < k :: !ExtensionAt(t, j)
    ensures LazyFrom(t, k) == Some(StripExtension(t))
    decreases |t| - k
  {
    var d := LastDot(t);
    if ExtensionAt(t, k) {
      assert d == Some(k);
    } else if k == |t| {
      assert d.Some? && 1 <= d.value < k ==> !ExtensionAt(t, d.value);
    } else {
      if d.Some? && d.value == k {
        assert d.value + 1 >= |t| || k < 1;
      }
      LazyFromStrips(t, k + 1);
    }
  }

  /** Without line terminators, the tail of the pattern drops exactly the
      final non-empty, dot-free extension. */
  lemma TailStrips(t: string)
    requires |t| >= 1 && NoLineTerminator(t)
    ensures Tail(t) == Some(StripExtension(t))
  {
    LazyFromStrips(t, 1);
  }

  lemma StripNamedExtension(id: string, ext: string)
    requires |id| >= 1 && |ext| >= 1
    requires forall j | 0 <= j < |ext| :: ext[j] != '.'
    ensures StripExtension(id + "." + ext) == id
  {
    var t := id + "." + ext;
    forall j | |id| < j < |t| ensures t[j] != '.' {
      assert t[j] == ext[j - |id| - 1];
    }
    assert LastDot(t) == Some(|id|) by {
      var d := LastDot(t);
      assert t[|id|] == '.';
      if d.None? {
        assert false;
      }
    }
    assert t[..|id|] == id;
  }

  /** Positions before `n` hold no `/upload/`, so the search starts at `n`. */
  predicate NoUploadBefore(s: string, n: nat) {
    forall i | 0 <= i < n :: !OccursAt(s, Upload, i)
  }

  /** A prefix in which no `/` is followed by `u` holds no `/upload/`, and
      none can straddle its end when it does not end in `/`. */
  lemma HostWithoutUpload(pre: string, rest: string)
    requires forall i | 0 <= i < |pre| - 1 :: pre[i] != '/' || pre[i + 1] != 'u'
    requires |pre| > 0 ==> pre[|pre| - 1] != '/'
    ensures NoUploadBefore(pre + rest, |pre|)
  {
    var s := pre + rest;
    forall i | 0 <= i < |pre| ensures !OccursAt(s, Upload, i) {
      OccursAtHead(s, Upload, i);
      assert s[i] == pre[i];
      if i + 1 < |pre| { assert s[i + 1] == pre[i + 1]; }
    }
  }

  lemma {:induction false} SearchSkips(s: string, p: nat, n: nat)
    requires p <= n <= |s| && NoUploadBefore(s, n)
    ensures Search(s, p) == Search(s, n)
    decreases n - p
  {
    if p < n {
      assert MatchAt(s, p).None?;
      SearchSkips(s, p + 1, n);
    }
  }

  /** The search reaches the first `/upload/` and matches there when the
      rest of the pattern does. */
  lemma LeftmostUpload(pre: string, rest: string)
    requires NoUploadBefore(pre + Upload + rest, |pre|)
    requires AfterUpload(rest).Some?
    ensures ExtractPublicId(pre + Upload + rest) == AfterUpload(rest)
  {
    var s := pre + Upload + rest;
    assert OccursAt(s, Upload, |pre|) by { assert s[|pre|..|pre| + |Upload|] == Upload; }
    assert s[|pre| + |Upload|..] == rest;
    SearchSkips(s, 0, |pre|);
  }

  lemma NoTerminatorIn(id: string, ext: string)
    requires NoLineTerminator(id) && NoLineTerminator(ext)
    ensures NoLineTerminator(id + "." + ext)
  {
    var t := id + "." + ext;
    forall j | 0 <= j < |t| ensures !IsLineTerminator(t[j]) {
      if j < |id| { assert t[j] == id[j]; }
      else if j > |id| { assert t[j] == ext[j - |id| - 1]; }
    }
  }

  /** `…/upload/v<digits>/<id>.<ext>`: the version and the extension are dropped. */
  lemma VersionedUrl(pre: string, digits: string, id: string, ext: string)
    requires NoUploadBefore(pre + Upload + ("v" + digits + "/" + id + "." + ext), |pre|)
    requires |digits| >= 1 && forall j | 0 <= j < |digits| :: IsDigit(digits[j])
    requires |id| >= 1 && NoLineTerminator(id)
    requires |ext| >= 1 && NoLineTerminator(ext) && forall j | 0 <= j < |ext| :: ext[j] != '.'
    ensures ExtractPublicId(pre + Upload + ("v" + digits + "/" + id + "." + ext)) == Some(id)
  {
    var t := id + "." + ext;
    var rest := "v" + digits + "/" + t;
    assert rest == "v" + digits + "/" + id + "." + ext;
    assert DigitsFrom(rest, 1) == |digits| by {
      assert rest[1..1 + |digits|] == digits;
      assert rest[1 + |digits|] == '/';
      StepDigits(rest, 1, digits, 1);
    }
    assert VersionEnd(rest, 0) == Some(2 + |digits|);
    assert rest[2 + |digits|..] == t;
    NoTerminatorIn(id, ext);
    TailStrips(t);
    StripNamedExtension(id, ext);
    LeftmostUpload(pre, rest);
  }

  lemma {:induction false} StepDigits(s: string, i: nat, digits: string, start: nat)
    requires start <= i <= start + |digits| < |s|
    requires s[start..start + |digits|] == digits
    requires forall j | 0 <= j < |digits| :: IsDigit(digits[j])
    requires !IsDigit(s[start + |digits|])
    ensures DigitsFrom(s, i) == start + |digits| - i
    decreases start + |digits| - i
  {
    if i < start + |digits| {
      assert s[i] == digits[i - start];
      StepDigits(s, i + 1, digits, start);
    }
  }

  /** `…/upload/<id>.<ext>` where the id does not itself start with `v`. */
  lemma UnversionedUrl(pre: string, id: string, ext: string)
    requires NoUploadBefore(pre + Upload + (id + "." + ext), |pre|)
    requires |id| >= 1 && id[0] != 'v' && NoLineTerminator(id)
    requires |ext| >= 1 && NoLineTerminator(ext) && forall j | 0 <= j < |ext| :: ext[j] != '.'
    ensures ExtractPublicId(pre + Upload + (id + "." + ext)) == Some(id)
  {
    var t := id + "." + ext;
    assert t[0] == id[0];
    assert VersionEnd(t, 0).None?;
    NoTerminatorIn(id, ext);
    TailStrips(t);
    StripNamedExtension(id, ext);
    LeftmostUpload(pre, t);
  }

  /** The two documented URL shapes both give `remi/abc`. */
  lemma CloudinaryExamples(pre: string)
    requires NoUploadBefore(pre + "/upload/v123/remi/abc.jpg", |pre|)
    requires NoUploadBefore(pre + "/upload/remi/abc.jpg", |pre|)
    ensures ExtractPublicId(pre + "/upload/v123/remi/abc.jpg") == Some("remi/abc")
    ensures ExtractPublicId(pre + "/upload/remi/abc.jpg") == Some("remi/abc")
  {
    assert pre + Upload + ("v" + "123" + "/" + "remi/abc" + "." + "jpg") == pre + "/upload/v123/remi/abc.jpg";
    assert pre + Upload + ("remi/abc" + "." + "jpg") == pre + "/upload/remi/abc.jpg";
    VersionedUrl(pre, "123", "remi/abc", "jpg");
    UnversionedUrl(pre, "remi/abc", "jpg");
  }

  /** A URL without `/upload/` has no public id. */
  lemma NoUploadNoId(url: string)
    requires !Includes(url, Upload)
    ensures ExtractPublicId(url) == None
  {
  }
}
