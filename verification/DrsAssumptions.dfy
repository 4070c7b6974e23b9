/**
  The hypotheses of the ruleset theorems can be met: there is a codec that reads back every set
  of byte strings, and with it there are rules to which the theorems apply.
*/
module DrsAssumptions {
  import opened Wrappers
  import opened Bytes
  import opened IpRanges
  import opened SuffixIndex
  import opened DrsFormat
  import opened DrsFiles
  import opened DrsTheorems

  /** A byte is written behind a 1, the end of a key is a 0, the end of the set a 2. */
  function EncodeKey(key: ByteString): ByteString
  {
    if key == [] then [0] else [1, key[0]] + EncodeKey(key[1..])
  }

  /** The keys written in `s`, of which `key` is the first, read so far. */
  function DecodeKeys(s: ByteString, key: ByteString): Option<Index>
  {
    if s == [] then None
    else if s[0] == 2 then if key == [] then Some({}) else None
    else if s[0] == 0 then
      match DecodeKeys(s[1..], [])
      case None => None
      case Some(keys) => Some({key} + keys)
    else if |s| >= 2 then DecodeKeys(s[2..], key + [s[1]])
    else None
  }

  ghost function EncodeSet(keys: Index): (s: ByteString)
    ensures s != []
  {
    if keys == {} then [2]
    else
      var key :| key in keys;
      EncodeKey(key) + EncodeSet(keys - {key})
  }

  lemma {:induction false} KeyRead(key: ByteString, rest: ByteString, read: ByteString)
    ensures DecodeKeys(EncodeKey(key) + rest, read)
         == match DecodeKeys(rest, []) case None => None case Some(keys) => Some({read + key} + keys)
    decreases key
  {
    var s := EncodeKey(key) + rest;
    if key == [] {
      assert s[1..] == rest && read + [] == read;
    } else {
      assert s[2..] == EncodeKey(key[1..]) + rest;
      assert read + [key[0]] + key[1..] == read + key;
      KeyRead(key[1..], rest, read + [key[0]]);
    }
  }

  lemma {:induction false} SetRead(keys: Index)
    ensures DecodeKeys(EncodeSet(keys), []) == Some(keys)
  {
    if keys != {} {
      var key :| key in keys && EncodeSet(keys) == EncodeKey(key) + EncodeSet(keys - {key});
      SetRead(keys - {key});
      KeyRead(key, EncodeSet(keys - {key}), []);
      assert [] + key == key && {key} + (keys - {key}) == keys;
    }
  }

  ghost const EXAMPLE_ENV: Env :=
    Env(keys => EncodeSet(keys), s => DecodeKeys(s, []), _ => true, _ => true, _ => true, (p, d) => p == d)

  /** A codec with the assumed property exists. */
  lemma CodecExists()
    ensures EXAMPLE_ENV.Valid()
  {
    forall keys: Index
      ensures EXAMPLE_ENV.fstDecode(EXAMPLE_ENV.fstEncode(keys)) == Some(keys)
    {
      SetRead(keys);
    }
  }

  /** Rules with one exact name and one exception for it can be written and loaded. */
  lemma RulesExist(name: ByteString)
    requires |name| <= MAX_DOMAIN
    ensures Loadable(EXAMPLE_ENV, NO_RULES.(domains := [name], excludeDomains := [name]))
  {
    var r := NO_RULES.(domains := [name], excludeDomains := [name]);
    CodecExists();
    KeyLength(name);
    assert KeySet([name]) == {name} && KeySet([]) == {};
    OneKeyLength(name);
    var fst := EncodeSet({name});
    assert BuildSetFst(EXAMPLE_ENV, [name]) == Ok(fst);
    assert BuildFsts(EXAMPLE_ENV, r) == Ok(Fsts(fst, [], fst, []));
    SectionsSmall(r, Fsts(fst, [], fst, []));
  }

  lemma {:induction false} KeyLength(key: ByteString)
    ensures |EncodeKey(key)| == 2 * |key| + 1
  {
    if key != [] {
      KeyLength(key[1..]);
    }
  }

  lemma OneKeyLength(key: ByteString)
    ensures |EncodeSet({key})| == 2 * |key| + 2
  {
    var k :| k in {key} && EncodeSet({key}) == EncodeKey(k) + EncodeSet({key} - {k});
    assert k == key && {key} - {k} == {};
    KeyLength(key);
  }

  lemma SectionsSmall(r: Rules, f: Fsts)
    requires r == NO_RULES.(domains := r.domains, excludeDomains := r.excludeDomains)
    requires |KeySet(r.domains)| < U32_LIMIT && |KeySet(r.excludeDomains)| < U32_LIMIT
    requires f.suffix == f.excludeSuffix == [] && |f.domain| < U32_LIMIT && |f.excludeDomain| < U32_LIMIT
    ensures SectionsFit(DropEmpty(AllSections(f, r)))
  {
    assert KeySet([]) == {};
    var all := AllSections(f, r);
    forall s | s in all
      ensures s.count < U32_LIMIT && |s.body| < U32_LIMIT
    {
    }
    DropEmptyMembers(all);
  }

  lemma {:induction false} DropEmptyMembers(ss: seq<Section>)
    ensures forall s | s in DropEmpty(ss) :: s in ss
  {
    if ss != [] {
      DropEmptyMembers(ss[1..]);
    }
  }
}
