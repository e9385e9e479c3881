/** Header maps and copyHeader: what is copied under which key, and when the order in which Go
    iterates over the source map does not matter. */
module Headers {
  import opened Bytes

  type Header = map<string, seq<string>>

  // ---- keys ----

  function LowerChar(c: char): char { if 'A' <= c <= 'Z' then c + 32 as char else c }

  function UpperChar(c: char): char { if 'a' <= c <= 'z' then c - 32 as char else c }

  /** strings.ToLower, for ASCII. */
  function ToLower(s: string): (r: string)
    ensures |r| == |s|
  {
    seq(|s|, i requires 0 <= i < |s| => LowerChar(s[i]))
  }

  predicate IsTokenChar(c: char) {
    || 'A' <= c <= 'Z' || 'a' <= c <= 'z' || '0' <= c <= '9'
    || c in "!#$%&'*+-.^_`|~"
  }

  predicate IsHeaderName(s: string) { forall i | 0 <= i < |s| :: IsTokenChar(s[i]) }

  /** http.CanonicalHeaderKey: a key with a character that no header name may have stays as it is. */
  function CanonicalHeaderKey(s: string): (r: string)
    ensures |r| == |s|
  {
    if IsHeaderName(s) then
      seq(|s|, i requires 0 <= i < |s| => if i == 0 || s[i - 1] == '-' then UpperChar(s[i]) else LowerChar(s[i]))
    else s
  }

  /** Canonical form only changes case. */
  lemma CanonicalKeepsLower(s: string)
    ensures ToLower(CanonicalHeaderKey(s)) == ToLower(s)
  {
    assert forall c: char :: LowerChar(UpperChar(c)) == LowerChar(c) && LowerChar(LowerChar(c)) == LowerChar(c);
    var r := CanonicalHeaderKey(s);
    forall i | 0 <= i < |s| ensures LowerChar(r[i]) == LowerChar(s[i]) {
    }
  }

  /** No upper-case letter is left, and nothing but those has changed. */
  lemma LowerForm(s: string, i: nat)
    requires i < |s|
    ensures var c := ToLower(s)[i];
            && !('A' <= c <= 'Z')
            && (if 'A' <= s[i] <= 'Z' then c - 'a' == s[i] - 'A' && c >= 'a' else c == s[i])
  {
  }

  /** The characters of a header name, section 5.6.2 of RFC 9110: printable and no delimiter. */
  lemma TokenChars(c: char)
    ensures IsTokenChar(c) <==> '!' <= c <= '~' && c !in "\"(),/:;<=>?@[\\]{}"
  {
  }

  /** Canonical form has upper case at the start and behind every hyphen, and lower case everywhere else. Together
      with CanonicalKeepsLower that leaves one form. */
  lemma CanonicalForm(s: string, i: nat)
    requires i < |s|
    ensures var r := CanonicalHeaderKey(s);
            if IsHeaderName(s) then
              if i == 0 || r[i - 1] == '-' then !('a' <= r[i] <= 'z') else !('A' <= r[i] <= 'Z')
            else r == s
  {
    hide IsHeaderName;
    if i > 0 && IsHeaderName(s) {
      assert CanonicalHeaderKey(s)[i - 1] == '-' <==> s[i - 1] == '-';
    }
  }

  /** The position of the first occurrence, as strings.Index finds it. */
  function Index(s: string, sub: string): (i: Option<nat>)
    ensures i.Some? ==> i.value + |sub| <= |s| && s[i.value..i.value + |sub|] == sub
  {
    if sub <= s then Some(0)
    else if s == [] then None
    else
      match Index(s[1..], sub)
      case None => None
      case Some(n) => Some(n + 1)
  }

  /** strings.Replace with n = 1. */
  function ReplaceFirst(s: string, old_: string, new_: string): string {
    match Index(s, old_)
    case None => s
    case Some(i) => s[..i] + new_ + s[i + |old_|..]
  }

  // http2.TrailerPrefix
  const TRAILER_PREFIX := "Trailer:"

  /** A key without the marker for trailers that were not announced. */
  function Strip(k: string): string { ReplaceFirst(k, TRAILER_PREFIX, "") }

  /** What Index finds is the first occurrence, and it finds one if there is any. */
  lemma {:induction false} IndexIsFirst(s: string, sub: string, j: nat)
    requires j + |sub| <= |s| && s[j..j + |sub|] == sub
    ensures Index(s, sub).Some? && Index(s, sub).value <= j
  {
    if !(sub <= s) {
      assert s[1..][j - 1..j - 1 + |sub|] == s[j..j + |sub|];
      IndexIsFirst(s[1..], sub, j - 1);
    }
  }

  predicate OccursAt(s: string, sub: string, i: nat) { i + |sub| <= |s| && s[i..i + |sub|] == sub }

  /** Where there is an occurrence, the text around the first one stays. */
  lemma ReplacedInPlace(before: string, old_: string, after: string, new_: string)
    requires forall j: nat | j < |before| :: !OccursAt(before + old_ + after, old_, j)
    ensures ReplaceFirst(before + old_ + after, old_, new_) == before + new_ + after
  {
    var s := before + old_ + after;
    assert s[|before|..|before| + |old_|] == old_ && s[..|before|] == before && s[|before| + |old_|..] == after;
    IndexIsFirst(s, old_, |before|);
    assert OccursAt(s, old_, Index(s, old_).value);
  }

  lemma ReplacedPrefix(s: string, old_: string, new_: string)
    requires old_ <= s
    ensures ReplaceFirst(s, old_, new_) == new_ + s[|old_|..]
  {
    assert Index(s, old_) == Some(0);
    assert s[..0] + new_ == new_;
  }

  // A key without the marker's first letter is not changed by stripping.
  lemma {:induction false} NotMarked(k: string)
    requires 'T' !in k
    ensures Index(k, TRAILER_PREFIX) == None && Strip(k) == k
  {
    assert TRAILER_PREFIX[0] == 'T';
    if k != [] {
      assert k[0] in k && forall c | c in k[1..] :: c in k;
      NotMarked(k[1..]);
    }
  }

  // Neither is one that has that letter only where the marker has no room.
  lemma NoRoomForMark(k: string)
    requires forall i: nat | i + 8 <= |k| :: k[i] != 'T'
    ensures Strip(k) == k
  {
    hide Index;
    MarkFound(k);
  }

  lemma MarkFound(k: string)
    ensures Index(k, TRAILER_PREFIX).Some? ==>
              var i := Index(k, TRAILER_PREFIX).value; i + 8 <= |k| && k[i] == 'T'
  {
    if Index(k, TRAILER_PREFIX).Some? {
      var i := Index(k, TRAILER_PREFIX).value;
      assert k[i] == k[i..i + 8][0] == 'T';
    }
  }

  lemma ToLowerConcat(a: string, b: string)
    ensures ToLower(a + b) == ToLower(a) + ToLower(b)
  {
  }

  // A marked key is stripped of its first marker, even if others follow.
  lemma Marked(name: string)
    ensures Strip("Trailer:" + name) == name
    ensures ToLower(TRAILER_PREFIX + name) != ToLower(name)
  {
    ReplacedPrefix(TRAILER_PREFIX + name, TRAILER_PREFIX, "");
    assert (TRAILER_PREFIX + name)[|TRAILER_PREFIX|..] == name && "" + name == name;
    assert |ToLower(TRAILER_PREFIX + name)| != |ToLower(name)|;
  }

  // ---- replacers and options ----

  type Replacer = (string, seq<string>) -> Option<(string, seq<string>)>

  function ReplaceInVals(key: string, old_: string, new_: string): Replacer {
    (k: string, vv: seq<string>) =>
      if ToLower(key) == ToLower(k) then
        Some((k, seq(|vv|, i requires 0 <= i < |vv| => ReplaceFirst(vv[i], old_, new_))))
      else None
  }

  function ReplaceInKeys(old_: string, new_: string): Replacer {
    (k: string, vv: seq<string>) =>
      if Index(k, old_).Some? then Some((ReplaceFirst(k, old_, new_), vv)) else None
  }

  function KeyCase(fn: string -> string): Replacer {
    (k: string, vv: seq<string>) => Some((fn(k), vv))
  }

  // `skipKeys` holds lower-case keys.
  datatype CopyOptions = CopyOptions(skipKeys: set<string>, replacers: seq<Replacer>)

  /** The keys of a header, without regard to case. */
  function LowerKeys(h: Header): set<string> { set k | k in h :: ToLower(k) }

  /** Key and values after the chain of replacers. */
  function Image(replacers: seq<Replacer>, k: string, vv: seq<string>): (string, seq<string>)
    decreases |replacers|
  {
    if replacers == [] then (k, vv)
    else
      match replacers[0](k, vv)
      case None => Image(replacers[1..], k, vv)
      case Some((k2, vv2)) => Image(replacers[1..], k2, vv2)
  }

  predicate Copied(src: Header, opts: CopyOptions, k: string) {
    k in src && ToLower(k) !in opts.skipKeys
  }

  function ImageOf(src: Header, opts: CopyOptions, k: string): (string, seq<string>)
    requires k in src
  {
    Image(opts.replacers, k, src[k])
  }

  function ImageKeys(src: Header, opts: CopyOptions): set<string> {
    set k | k in src && Copied(src, opts, k) :: ImageOf(src, opts, k).0
  }

  // ---- copyHeader ----

  function CopyKey(dst: Header, src: Header, opts: CopyOptions, k: string): Header
    requires k in src
  {
    if ToLower(k) in opts.skipKeys then dst
    else
      var (k2, vv2) := ImageOf(src, opts, k);
      dst[k2 := vv2]
  }

  function CopyInOrder(dst: Header, src: Header, opts: CopyOptions, order: seq<string>): Header
    requires forall k | k in order :: k in src
    decreases |order|
  {
    if order == [] then dst else CopyInOrder(CopyKey(dst, src, opts, order[0]), src, opts, order[1..])
  }

  /** An order in which a Go map with these keys can be iterated over. */
  ghost predicate IsOrder(order: seq<string>, keys: set<string>) {
    && (forall i, j | 0 <= i < j < |order| :: order[i] != order[j])
    && (forall k :: k in order <==> k in keys)
  }

  // A header map that is updated in place.
  class HeaderMap {
    var entries: Header

    constructor (entries: Header)
      ensures this.entries == entries
    {
      this.entries := entries;
    }

    method Set(k: string, vv: seq<string>)
      modifies this
      ensures entries == old(entries)[k := vv]
    {
      entries := entries[k := vv];
    }

    method Delete(k: string)
      modifies this
      ensures entries == old(entries) - {k}
    {
      entries := entries - {k};
    }
  }

  method CopyHeader(dst: HeaderMap, src: HeaderMap, opts: CopyOptions) returns (ghost order: seq<string>)
    requires dst != src
    modifies dst
    ensures IsOrder(order, src.entries.Keys)
    ensures dst.entries == CopyInOrder(old(dst.entries), src.entries, opts, order)
  {
    order := [];
    var rest := src.entries.Keys;
    while rest != {}
      invariant rest <= src.entries.Keys && src.entries == old(src.entries)
      invariant IsOrder(order, src.entries.Keys - rest)
      invariant dst.entries == CopyInOrder(old(dst.entries), src.entries, opts, order)
      decreases rest
    {
      var key :| key in rest;
      rest := rest - {key};
      CopyInOrderSnoc(old(dst.entries), src.entries, opts, order, key);
      OrderSnoc(order, src.entries.Keys - rest - {key}, key);
      assert src.entries.Keys - rest - {key} + {key} == src.entries.Keys - rest;
      order := order + [key];
      if ToLower(key) !in opts.skipKeys {
        var k, vv := key, src.entries[key];
        for i := 0 to |opts.replacers|
          invariant Image(opts.replacers[i..], k, vv) == ImageOf(src.entries, opts, key)
        {
          assert opts.replacers[i..][0] == opts.replacers[i] && opts.replacers[i..][1..] == opts.replacers[i + 1..];
          var r := opts.replacers[i](k, vv);
          if r.Some? {
            k, vv := r.value.0, r.value.1;
          }
        }
        dst.Set(k, vv);
      }
    }
  }

  /** The keys in some order. */
  method HeaderKeys(h: HeaderMap) returns (keys: seq<string>)
    ensures IsOrder(keys, h.entries.Keys)
  {
    keys := [];
    var rest := h.entries.Keys;
    while rest != {}
      invariant rest <= h.entries.Keys && IsOrder(keys, h.entries.Keys - rest)
      decreases rest
    {
      var k :| k in rest;
      rest := rest - {k};
      OrderSnoc(keys, h.entries.Keys - rest - {k}, k);
      assert h.entries.Keys - rest - {k} + {k} == h.entries.Keys - rest;
      keys := keys + [k];
    }
  }

  lemma OrderSnoc(order: seq<string>, keys: set<string>, k: string)
    requires IsOrder(order, keys) && k !in keys
    ensures IsOrder(order + [k], keys + {k})
  {
    forall i, j | 0 <= i < j < |order + [k]| ensures (order + [k])[i] != (order + [k])[j] {
      assert order[i] in order;
    }
  }

  lemma {:induction false} CopyInOrderSnoc(dst: Header, src: Header, opts: CopyOptions, order: seq<string>, k: string)
    requires (forall x | x in order :: x in src) && k in src
    ensures CopyInOrder(dst, src, opts, order + [k]) == CopyKey(CopyInOrder(dst, src, opts, order), src, opts, k)
    decreases |order|
  {
    hide CopyKey;
    if order == [] {
      assert order + [k] == [k] && [k][1..] == [];
    } else {
      assert (order + [k])[1..] == order[1..] + [k];
      CopyInOrderSnoc(CopyKey(dst, src, opts, order[0]), src, opts, order[1..], k);
    }
  }

  /** What a copy holds, whatever the order: the destination's keys and the images of the copied keys;
      each image with the values of one of the copied keys that have it; and under the other keys
      what was there before. */
  ghost predicate Overwritten(r: Header, dst: Header, src: Header, opts: CopyOptions) {
    && r.Keys == dst.Keys + ImageKeys(src, opts)
    && (forall x | x in ImageKeys(src, opts) :: exists k :: Copied(src, opts, k) && ImageOf(src, opts, k) == (x, r[x]))
    && (forall x | x in dst && x !in ImageKeys(src, opts) :: r[x] == dst[x])
  }

  // The same while only `done` has been copied.
  ghost predicate OverwrittenBy(r: Header, dst: Header, src: Header, opts: CopyOptions, done: seq<string>) {
    && (forall x ::
          x in r <==> x in dst || exists k :: k in done && Copied(src, opts, k) && ImageOf(src, opts, k).0 == x)
    && (forall x | x in r :: (exists k :: k in done && Copied(src, opts, k) && ImageOf(src, opts, k) == (x, r[x]))
                             || (x in dst && r[x] == dst[x]
                                 && forall k | k in done && Copied(src, opts, k) :: ImageOf(src, opts, k).0 != x))
  }

  // A key that is skipped leaves everything as it was.
  lemma SkippedKeyOverwrites(r: Header, dst: Header, src: Header, opts: CopyOptions, done: seq<string>, key: string)
    requires OverwrittenBy(r, dst, src, opts, done) && key in src && !Copied(src, opts, key)
    ensures OverwrittenBy(r, dst, src, opts, done + [key])
  {
    hide ImageOf, ToLower;
    assert forall k | Copied(src, opts, k) :: k in done + [key] <==> k in done;
  }

  // The image of the key just copied has its values; every other entry is accounted for as before.
  lemma CopiedKeyOverwrites(r: Header, dst: Header, src: Header, opts: CopyOptions, done: seq<string>, key: string)
    requires OverwrittenBy(r, dst, src, opts, done) && Copied(src, opts, key)
    ensures var (x, vv) := ImageOf(src, opts, key); OverwrittenBy(r[x := vv], dst, src, opts, done + [key])
  {
    hide ImageOf, ToLower;
    var (image, vv) := ImageOf(src, opts, key);
    var t, all := r[image := vv], done + [key];
    assert all[|done|] == key && forall k :: k in all <==> k in done || k == key;
    forall x
      ensures x in t <==> x in dst || exists k :: k in all && Copied(src, opts, k) && ImageOf(src, opts, k).0 == x
    {
      assert x in t <==> x in r || x == image;
    }
    forall x | x in t
      ensures (exists k :: k in all && Copied(src, opts, k) && ImageOf(src, opts, k) == (x, t[x]))
           || (x in dst && t[x] == dst[x]
               && forall k | k in all && Copied(src, opts, k) :: ImageOf(src, opts, k).0 != x)
    {
      if x == image {
        assert key in all && ImageOf(src, opts, key) == (x, t[x]);
      } else {
        assert x in r && t[x] == r[x];
      }
    }
  }

  lemma CopyKeyOverwrites(r: Header, dst: Header, src: Header, opts: CopyOptions, done: seq<string>, key: string)
    requires OverwrittenBy(r, dst, src, opts, done) && key in src
    ensures OverwrittenBy(CopyKey(r, src, opts, key), dst, src, opts, done + [key])
  {
    hide ImageOf, OverwrittenBy, ToLower;
    if Copied(src, opts, key) {
      CopiedKeyOverwrites(r, dst, src, opts, done, key);
    } else {
      SkippedKeyOverwrites(r, dst, src, opts, done, key);
    }
  }

  lemma {:induction false} CopyOverwritesBy(dst: Header, src: Header, opts: CopyOptions, order: seq<string>)
    requires forall x | x in order :: x in src
    ensures OverwrittenBy(CopyInOrder(dst, src, opts, order), dst, src, opts, order)
    decreases |order|
  {
    if order != [] {
      hide OverwrittenBy, CopyKey;
      var before, k := order[..|order| - 1], order[|order| - 1];
      assert order == before + [k];
      CopyOverwritesBy(dst, src, opts, before);
      CopyInOrderSnoc(dst, src, opts, before, k);
      CopyKeyOverwrites(CopyInOrder(dst, src, opts, before), dst, src, opts, before, k);
    }
  }

  lemma CopyOverwrites(dst: Header, src: Header, opts: CopyOptions, order: seq<string>)
    requires IsOrder(order, src.Keys)
    ensures Overwritten(CopyInOrder(dst, src, opts, order), dst, src, opts)
  {
    hide ImageOf, CopyInOrder;
    CopyOverwritesBy(dst, src, opts, order);
    var r := CopyInOrder(dst, src, opts, order);
    assert r.Keys == dst.Keys + ImageKeys(src, opts);
  }

  /** Copied keys with one image have the same values there. */
  ghost predicate NoClash(src: Header, opts: CopyOptions) {
    forall a, b | Copied(src, opts, a) && Copied(src, opts, b) && ImageOf(src, opts, a).0 == ImageOf(src, opts, b).0 ::
      ImageOf(src, opts, a).1 == ImageOf(src, opts, b).1
  }

  // Without a clash there is only one such copy.
  lemma OverwrittenUnique(r: Header, t: Header, dst: Header, src: Header, opts: CopyOptions)
    requires NoClash(src, opts) && Overwritten(r, dst, src, opts) && Overwritten(t, dst, src, opts)
    ensures r == t
  {
    hide ImageOf;
    forall x | x in r ensures r[x] == t[x] {
      if x in ImageKeys(src, opts) {
        var a :| Copied(src, opts, a) && ImageOf(src, opts, a) == (x, r[x]);
        var b :| Copied(src, opts, b) && ImageOf(src, opts, b) == (x, t[x]);
      }
    }
  }

  // Some order that ends with a given key.
  lemma OrderEndingWith(keys: set<string>, last: string) returns (order: seq<string>)
    requires last in keys
    ensures IsOrder(order + [last], keys)
  {
    order := SomeOrder(keys - {last});
    OrderSnoc(order, keys - {last}, last);
    assert keys - {last} + {last} == keys;
  }

  lemma SomeOrder(keys: set<string>) returns (order: seq<string>)
    ensures IsOrder(order, keys)
  {
    order := [];
    if keys != {} {
      var k :| k in keys;
      var before := SomeOrder(keys - {k});
      OrderSnoc(before, keys - {k}, k);
      assert keys - {k} + {k} == keys;
      order := before + [k];
    }
  }

  /** copyHeader does not depend on the iteration order exactly if no two copied keys clash. */
  lemma OrderIndependence(dst: Header, src: Header, opts: CopyOptions)
    ensures NoClash(src, opts) <==>
            forall a, b | IsOrder(a, src.Keys) && IsOrder(b, src.Keys) ::
              CopyInOrder(dst, src, opts, a) == CopyInOrder(dst, src, opts, b)
  {
    hide ImageOf, CopyInOrder;
    if NoClash(src, opts) {
      forall a, b | IsOrder(a, src.Keys) && IsOrder(b, src.Keys)
        ensures CopyInOrder(dst, src, opts, a) == CopyInOrder(dst, src, opts, b)
      {
        CopyOverwrites(dst, src, opts, a);
        CopyOverwrites(dst, src, opts, b);
        OverwrittenUnique(CopyInOrder(dst, src, opts, a), CopyInOrder(dst, src, opts, b), dst, src, opts);
      }
    } else {
      var k, m :| Copied(src, opts, k) && Copied(src, opts, m) && ImageOf(src, opts, k).0 == ImageOf(src, opts, m).0
                  && ImageOf(src, opts, k).1 != ImageOf(src, opts, m).1;
      var a := OrderEndingWith(src.Keys, k);
      var b := OrderEndingWith(src.Keys, m);
      LastWins(dst, src, opts, a, k);
      LastWins(dst, src, opts, b, m);
      assert CopyInOrder(dst, src, opts, a + [k]) != CopyInOrder(dst, src, opts, b + [m]);
    }
  }

  lemma LastWins(dst: Header, src: Header, opts: CopyOptions, order: seq<string>, last: string)
    requires IsOrder(order + [last], src.Keys) && Copied(src, opts, last)
    ensures var r := CopyInOrder(dst, src, opts, order + [last]);
            var (x, vv) := ImageOf(src, opts, last);
            x in r && r[x] == vv
  {
    hide ImageOf;
    assert forall x | x in order :: x in order + [last];
    assert last in order + [last];
    CopyInOrderSnoc(dst, src, opts, order, last);
  }

  // Without a clash each copied key is found under its image with its own values.
  lemma CopiedKeyIsFound(r: Header, dst: Header, src: Header, opts: CopyOptions, k: string)
    requires Overwritten(r, dst, src, opts) && NoClash(src, opts) && Copied(src, opts, k)
    ensures var (x, vv) := ImageOf(src, opts, k);
            x in r && r[x] == vv
  {
    hide ImageOf;
    var x := ImageOf(src, opts, k).0;
    assert x in ImageKeys(src, opts);
    var a :| Copied(src, opts, a) && ImageOf(src, opts, a) == (x, r[x]);
  }

  // ---- the three copies of the server ----

  const GRPC_CONTENT_TYPE := "application/grpc"

  /** prepareHeaders. */
  function PrepareOptions(contentType: string): CopyOptions {
    CopyOptions({"trailer"},
                [ReplaceInKeys(TRAILER_PREFIX, ""), ReplaceInVals("content-type", GRPC_CONTENT_TYPE, contentType),
                 KeyCase(CanonicalHeaderKey)])
  }

  /** extractTrailingHeaders and extractTrailerHeaders; `flushed` holds the lower-case keys already sent. */
  function TrailerOptions(flushed: set<string>): CopyOptions {
    CopyOptions({"trailer"} + flushed, [ReplaceInKeys(TRAILER_PREFIX, ""), KeyCase(ToLower)])
  }

  /** copyFlushedHeaders. */
  function FlushedOptions(): CopyOptions {
    CopyOptions({"trailer"}, [KeyCase(CanonicalHeaderKey)])
  }

  lemma PrepareImage(contentType: string, src: Header, k: string)
    requires k in src
    ensures var (x, vv) := ImageOf(src, PrepareOptions(contentType), k);
            && x == CanonicalHeaderKey(Strip(k))
            && |vv| == |src[k]|
            && (ToLower(Strip(k)) != "content-type" ==> vv == src[k])
            && (ToLower(Strip(k)) == "content-type" ==>
                 forall i | 0 <= i < |vv| :: vv[i] == ReplaceFirst(src[k][i], GRPC_CONTENT_TYPE, contentType))
  {
    hide ReplaceFirst, Index, ToLower, CanonicalHeaderKey;
    var r0, r1, r2 := ReplaceInKeys(TRAILER_PREFIX, ""), ReplaceInVals("content-type", GRPC_CONTENT_TYPE, contentType),
                      KeyCase(CanonicalHeaderKey);
    NotFoundNotReplaced(k, TRAILER_PREFIX, "");
    ContentTypeIsLower();
    ChainStep(r0, [r1, r2], k, src[k]);
    ChainStep(r1, [r2], Strip(k), src[k]);
    var vv := if r1(Strip(k), src[k]).Some? then r1(Strip(k), src[k]).value.1 else src[k];
    ChainStep(r2, [], Strip(k), vv);
    assert [r0] + [r1, r2] == [r0, r1, r2] && [r1] + [r2] == [r1, r2] && [r2] + [] == [r2];
  }

  lemma ContentTypeIsLower()
    ensures ToLower("content-type") == "content-type"
  {
  }

  lemma NotFoundNotReplaced(s: string, old_: string, new_: string)
    ensures Index(s, old_).None? ==> ReplaceFirst(s, old_, new_) == s
  {
  }

  lemma ChainStep(r: Replacer, rest: seq<Replacer>, k: string, vv: seq<string>)
    ensures Image([r] + rest, k, vv) ==
            match r(k, vv) case None => Image(rest, k, vv) case Some((k2, vv2)) => Image(rest, k2, vv2)
  {
    assert ([r] + rest)[1..] == rest;
  }

  lemma TrailerImage(flushed: set<string>, src: Header, k: string)
    requires k in src
    ensures ImageOf(src, TrailerOptions(flushed), k) == (ToLower(Strip(k)), src[k])
  {
    var rs := TrailerOptions(flushed).replacers;
    assert rs[1..] == [KeyCase(ToLower)] && [KeyCase(ToLower)][1..] == [];
    assert Image(rs, k, src[k]) == Image(rs[1..], Strip(k), src[k]);
  }

  lemma FlushedImage(src: Header, k: string)
    requires k in src
    ensures ImageOf(src, FlushedOptions(), k) == (CanonicalHeaderKey(k), src[k])
  {
    var rs := FlushedOptions().replacers;
    assert rs[1..] == [];
  }

  /** The keys recorded as flushed are, without regard to case, the source's except "Trailer". */
  lemma FlushedKeys(r: Header, dst: Header, src: Header)
    requires Overwritten(r, dst, src, FlushedOptions())
    ensures LowerKeys(r) == LowerKeys(dst) + (LowerKeys(src) - {"trailer"})
  {
    hide ImageOf, ToLower, CanonicalHeaderKey;
    var opts := FlushedOptions();
    forall k | k in src ensures ToLower(ImageOf(src, opts, k).0) == ToLower(k) {
      FlushedImage(src, k);
      CanonicalKeepsLower(k);
    }
    forall l ensures l in LowerKeys(r) <==> l in LowerKeys(dst) + (LowerKeys(src) - {"trailer"}) {
      if l in LowerKeys(r) {
        var x :| x in r && ToLower(x) == l;
        if x !in dst {
          assert x in ImageKeys(src, opts);
        }
      }
      if l in LowerKeys(src) - {"trailer"} {
        var k :| k in src && ToLower(k) == l;
        assert Copied(src, opts, k);
        assert ImageOf(src, opts, k).0 in r;
      }
    }
  }

  /** A trailer block and the keys flushed before it share out the headers: a key other than
      "Trailer" was either flushed, without regard to case, or goes into the block, stripped and in
      lower case, with its values if no two such keys normalize to one; and nothing else goes there. */
  lemma TrailerPartition(th: Header, src: Header, flushed: set<string>)
    requires Overwritten(th, map[], src, TrailerOptions(flushed))
    ensures forall k | k in src && ToLower(k) != "trailer" && ToLower(k) !in flushed :: ToLower(Strip(k)) in th
    ensures forall x | x in th ::
              exists k :: k in src && ToLower(k) != "trailer" && ToLower(k) !in flushed
                          && x == ToLower(Strip(k)) && th[x] == src[k]
    ensures DistinctTrailers(src, flushed) ==>
              forall k | k in src && ToLower(k) != "trailer" && ToLower(k) !in flushed ::
                th[ToLower(Strip(k))] == src[k]
  {
    hide ImageOf, ToLower, Strip;
    var opts := TrailerOptions(flushed);
    forall k | k in src ensures ImageOf(src, opts, k) == (ToLower(Strip(k)), src[k]) {
      TrailerImage(flushed, src, k);
    }
    forall k | k in src && ToLower(k) != "trailer" && ToLower(k) !in flushed
      ensures ToLower(Strip(k)) in th && (DistinctTrailers(src, flushed) ==> th[ToLower(Strip(k))] == src[k])
    {
      assert Copied(src, opts, k);
      assert ImageOf(src, opts, k).0 in ImageKeys(src, opts);
      if DistinctTrailers(src, flushed) {
        DistinctIsNoClash(src, flushed);
        CopiedKeyIsFound(th, map[], src, opts, k);
      }
    }
    forall x | x in th
      ensures exists k :: k in src && ToLower(k) != "trailer" && ToLower(k) !in flushed
                          && x == ToLower(Strip(k)) && th[x] == src[k]
    {
      assert x in ImageKeys(src, opts);
      var k :| Copied(src, opts, k) && ImageOf(src, opts, k) == (x, th[x]);
    }
  }

  /** The keys that go into a trailer block stay apart when they are stripped and lower-cased. */
  ghost predicate DistinctTrailers(src: Header, flushed: set<string>) {
    forall a, b | a in src && b in src && ToLower(a) !in {"trailer"} + flushed && ToLower(b) !in {"trailer"} + flushed
                  && ToLower(Strip(a)) == ToLower(Strip(b)) :: a == b
  }

  /** If even all keys but "Trailer" stay apart, being in the trailer block means not having been flushed. */
  lemma TrailerOrFlushed(th: Header, src: Header, flushed: set<string>, key: string)
    requires Overwritten(th, map[], src, TrailerOptions(flushed))
    requires DistinctTrailers(src, {}) && key in src && ToLower(key) != "trailer"
    ensures ToLower(Strip(key)) in th <==> ToLower(key) !in flushed
    ensures ToLower(key) !in flushed ==> th[ToLower(Strip(key))] == src[key]
  {
    hide ImageOf, ToLower, Strip, Overwritten;
    TrailerPartition(th, src, flushed);
    assert {"trailer"} + {} == {"trailer"};
    assert DistinctTrailers(src, flushed);
  }

  lemma DistinctIsNoClash(src: Header, flushed: set<string>)
    requires DistinctTrailers(src, flushed)
    ensures NoClash(src, TrailerOptions(flushed))
  {
    hide ImageOf, ToLower, Strip;
    var opts := TrailerOptions(flushed);
    forall k | k in src ensures ImageOf(src, opts, k) == (ToLower(Strip(k)), src[k]) {
      TrailerImage(flushed, src, k);
    }
  }

  /** The iteration order does matter for headers that a server may well have: a name with and without the trailer
      prefix, with different values. The block of trailers then holds either. */
  lemma PrefixedKeysClash(dst: Header, name: string, v: seq<string>, w: seq<string>)
    requires 'T' !in name && ToLower(name) != "trailer" && v != w
    ensures var src: Header := map[name := v, TRAILER_PREFIX + name := w];
            && !NoClash(src, TrailerOptions({}))
            && exists a, b :: IsOrder(a, src.Keys) && IsOrder(b, src.Keys)
                 && CopyInOrder(dst, src, TrailerOptions({}), a) != CopyInOrder(dst, src, TrailerOptions({}), b)
  {
    hide ToLower, Strip, ImageOf, CopyInOrder;
    var marked := TRAILER_PREFIX + name;
    var src: Header := map[name := v, marked := w];
    var opts := TrailerOptions({});
    NotMarked(name);
    Marked(name);
    MarkedIsNotTrailer(name);
    assert name != marked;
    TrailerImage({}, src, name);
    TrailerImage({}, src, marked);
    assert Copied(src, opts, name) && Copied(src, opts, marked);
    OrderIndependence(dst, src, opts);
  }

  lemma MarkedIsNotTrailer(name: string)
    ensures ToLower(TRAILER_PREFIX + name) != "trailer"
  {
    assert |ToLower(TRAILER_PREFIX + name)| >= 8 && |"trailer"| == 7;
  }
}
