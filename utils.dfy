/** Process-name helpers: the kernel keeps at most 15 bytes of a command name,
    so configured names are compared after truncation. */
module Utils {
  import opened Common
  import opened Utf8

  /** `TASK_COMM_LEN - 1`. */
  const MaxCommLen: nat := 15

  /** `truncate_process_name`: the name itself when it has at most 15 BYTES,
      otherwise its first 15 CHARACTERS (which may be more than 15 bytes). */
  function TruncateProcessName(name: string): (r: string)
    ensures r <= name
    ensures ByteLen(name) <= MaxCommLen ==> r == name
    ensures ByteLen(name) > MaxCommLen ==> |r| == Min(MaxCommLen, |name|)
  {
    if ByteLen(name) <= MaxCommLen then name else name[..Min(MaxCommLen, |name|)]
  }

  lemma TruncateIdempotent(name: string)
    ensures TruncateProcessName(TruncateProcessName(name)) == TruncateProcessName(name)
  {
  }

  /** For an ASCII name the result fits the 15-byte kernel field. */
  lemma TruncateAsciiFits(name: string)
    requires IsAscii(name)
    ensures ByteLen(TruncateProcessName(name)) <= MaxCommLen
  {
    var r := TruncateProcessName(name);
    assert IsAscii(r) by {
      forall i | 0 <= i < |r| ensures (r[i] as int) < 0x80 {
        assert r[i] == name[i];
      }
    }
    AsciiByteLen(r);
  }

  /** The configured names whose truncation is `truncated`, in input order. */
  function Matching(truncated: string, names: seq<string>): (r: seq<string>)
    ensures |r| <= |names|
  {
    if names == [] then []
    else (if TruncateProcessName(names[0]) == truncated then [names[0]] else [])
         + Matching(truncated, names[1..])
  }

  lemma {:induction false} MatchingMembership(truncated: string, names: seq<string>, x: string)
    ensures x in Matching(truncated, names) <==> x in names && TruncateProcessName(x) == truncated
  {
    if names != [] {
      MatchingMembership(truncated, names[1..], x);
      assert names == [names[0]] + names[1..];
    }
  }

  lemma {:induction false} MatchingSnoc(truncated: string, names: seq<string>, x: string)
    ensures Matching(truncated, names + [x])
         == Matching(truncated, names) + (if TruncateProcessName(x) == truncated then [x] else [])
  {
    if names == [] {
      assert names + [x] == [x];
    } else {
      assert (names + [x])[1..] == names[1..] + [x];
      MatchingSnoc(truncated, names[1..], x);
    }
  }

  /** `find_process_configs_by_truncated_name`. */
  method FindProcessConfigsByTruncatedName(truncated: string, names: seq<string>) returns (matches: seq<string>)
    ensures matches == Matching(truncated, names)
    ensures forall x :: x in matches <==> x in names && TruncateProcessName(x) == truncated
  {
    matches := [];
    for i := 0 to |names|
      invariant matches == Matching(truncated, names[..i])
    {
      MatchingSnoc(truncated, names[..i], names[i]);
      assert names[..i + 1] == names[..i] + [names[i]];
      if TruncateProcessName(names[i]) == truncated {
        matches := matches + [names[i]];
      }
    }
    assert names[..|names|] == names;
    forall x ensures x in matches <==> x in names && TruncateProcessName(x) == truncated {
      MatchingMembership(truncated, names, x);
    }
  }

  /** The truncations of the given names. */
  function Truncations(names: seq<string>): set<string>
  {
    set i | 0 <= i < |names| :: TruncateProcessName(names[i])
  }

  /** What `build_process_name_mapping` computes: every truncation keyed to
      the names that share it, in input order. */
  function NameMapping(names: seq<string>): map<string, seq<string>>
  {
    map k | k in Truncations(names) :: Matching(k, names)
  }

  lemma {:induction false} MatchingOutsideTruncations(truncated: string, names: seq<string>)
    requires truncated !in Truncations(names)
    ensures Matching(truncated, names) == []
  {
    if names != [] {
      assert TruncateProcessName(names[0]) in Truncations(names);
      forall i | 0 <= i < |names[1..]| ensures TruncateProcessName(names[1..][i]) != truncated {
        assert names[1..][i] == names[i + 1];
        assert TruncateProcessName(names[i + 1]) in Truncations(names);
      }
      MatchingOutsideTruncations(truncated, names[1..]);
    }
  }

  /** Adding one name appends it to its own bucket (creating the bucket if needed). */
  lemma NameMappingSnoc(names: seq<string>, x: string)
    ensures var m, t := NameMapping(names), TruncateProcessName(x);
            NameMapping(names + [x]) == m[t := (if t in m then m[t] else []) + [x]]
  {
    var m, t := NameMapping(names), TruncateProcessName(x);
    var m' := NameMapping(names + [x]);
    var expected := m[t := (if t in m then m[t] else []) + [x]];
    assert Truncations(names + [x]) == Truncations(names) + {t} by {
      forall k ensures k in Truncations(names + [x]) <==> k in Truncations(names) + {t} {
        if k in Truncations(names + [x]) {
          var i :| 0 <= i < |names + [x]| && TruncateProcessName((names + [x])[i]) == k;
          if i < |names| {
            assert (names + [x])[i] == names[i];
          }
        }
        if k in Truncations(names) {
          var i :| 0 <= i < |names| && TruncateProcessName(names[i]) == k;
          assert (names + [x])[i] == names[i];
        }
        assert (names + [x])[|names|] == x;
      }
    }
    forall k | k in m'
      ensures m'[k] == expected[k]
    {
      MatchingSnoc(k, names, x);
      if k == t && t !in m {
        MatchingOutsideTruncations(t, names);
      }
    }
    assert m'.Keys == expected.Keys;
  }

  /** `build_process_name_mapping`. */
  method BuildProcessNameMapping(names: seq<string>) returns (mapping: map<string, seq<string>>)
    ensures mapping == NameMapping(names)
    ensures mapping.Keys == Truncations(names)
    ensures forall i :: 0 <= i < |names| ==> names[i] in mapping[TruncateProcessName(names[i])]
    ensures forall k :: k in mapping ==> mapping[k] != []
  {
    mapping := map[];
    for i := 0 to |names|
      invariant mapping == NameMapping(names[..i])
    {
      var t := TruncateProcessName(names[i]);
      NameMappingSnoc(names[..i], names[i]);
      assert names[..i + 1] == names[..i] + [names[i]];
      var bucket := if t in mapping then mapping[t] else [];
      mapping := mapping[t := bucket + [names[i]]];
    }
    assert names[..|names|] == names;
    forall i | 0 <= i < |names| ensures names[i] in mapping[TruncateProcessName(names[i])] {
      MatchingMembership(TruncateProcessName(names[i]), names, names[i]);
    }
    forall k | k in mapping ensures mapping[k] != [] {
      var i :| 0 <= i < |names| && TruncateProcessName(names[i]) == k;
      MatchingMembership(k, names, names[i]);
    }
  }

  /** `smart_match_process_name`: the first configured name of a bucket. */
  function SmartMatchProcessName(truncated: string, mapping: map<string, seq<string>>): (r: Option<string>)
    ensures r.Some? <==> truncated in mapping && mapping[truncated] != []
    ensures r.Some? ==> r.value == mapping[truncated][0]
  {
    if truncated in mapping && |mapping[truncated]| >= 1 then Some(mapping[truncated][0]) else None
  }

  /** On a mapping built from `names`, the smart match is the first name, in
      input order, whose truncation is the query. */
  lemma SmartMatchIsFirstMatch(truncated: string, names: seq<string>)
    ensures var found := Matching(truncated, names);
            SmartMatchProcessName(truncated, NameMapping(names))
              == if found == [] then None else Some(found[0])
  {
    if truncated !in Truncations(names) {
      MatchingOutsideTruncations(truncated, names);
    }
  }

  /** The `/`-separated fields of a path, empty ones included. */
  function Fields(s: string): (r: seq<string>)
    ensures |r| >= 1
    ensures forall i :: 0 <= i < |r| ==> '/' !in r[i]
  {
    if s == [] then [[]]
    else if s[0] == '/' then [[]] + Fields(s[1..])
    else
      var rest := Fields(s[1..]);
      [[s[0]] + rest[0]] + rest[1..]
  }

  lemma {:induction false} FieldsNoSlash(s: string)
    requires '/' !in s
    ensures Fields(s) == [s]
  {
    if s != [] {
      FieldsNoSlash(s[1..]);
      assert [s[0]] + s[1..] == s;
    }
  }

  lemma {:induction false} FieldsSlash(a: string, b: string)
    ensures Fields(a + "/" + b) == Fields(a) + Fields(b)
  {
    if a == [] {
      assert a + "/" + b == "/" + b;
    } else {
      assert (a + "/" + b)[1..] == a[1..] + "/" + b;
      FieldsSlash(a[1..], b);
    }
  }

  /** Unix path components other than the root and `.`: what
      `Path::components` yields, minus RootDir and CurDir. */
  function Components(s: string): (r: seq<string>)
    ensures forall i :: 0 <= i < |r| ==> r[i] != "" && r[i] != "." && '/' !in r[i]
  {
    NonTrivial(Fields(s))
  }

  function NonTrivial(fs: seq<string>): (r: seq<string>)
    requires forall i :: 0 <= i < |fs| ==> '/' !in fs[i]
    ensures forall i :: 0 <= i < |r| ==> r[i] != "" && r[i] != "." && '/' !in r[i]
    ensures |r| <= |fs|
  {
    if fs == [] then []
    else (if fs[0] == "" || fs[0] == "." then [] else [fs[0]]) + NonTrivial(fs[1..])
  }

  lemma {:induction false} NonTrivialAppend(fs: seq<string>, gs: seq<string>)
    requires forall i :: 0 <= i < |fs| ==> '/' !in fs[i]
    requires forall i :: 0 <= i < |gs| ==> '/' !in gs[i]
    ensures NonTrivial(fs + gs) == NonTrivial(fs) + NonTrivial(gs)
  {
    if fs == [] {
      assert fs + gs == gs;
    } else {
      assert (fs + gs)[1..] == fs[1..] + gs;
      NonTrivialAppend(fs[1..], gs);
    }
  }

  /** `Path::file_name`: the last component, unless there is none or it is `..`. */
  function FileName(path: string): (r: Option<string>)
    ensures r.Some? ==> r.value != "" && r.value != "." && r.value != ".." && '/' !in r.value
  {
    var cs := Components(path);
    if cs == [] || cs[|cs| - 1] == ".." then None else Some(cs[|cs| - 1])
  }

  /** `extract_executable_name`: the file name of the command path, or the
      whole command when it has none. */
  function ExtractExecutableName(command: string): (r: string)
    ensures r == command || '/' !in r
  {
    match FileName(command)
    case Some(n) => n
    case None => command
  }

  /** A command without `/` is returned unchanged. */
  lemma ExtractWithoutSlash(command: string)
    requires '/' !in command
    ensures ExtractExecutableName(command) == command
  {
    FieldsNoSlash(command);
    assert Fields(command)[1..] == [];
  }

  /** The last path component is the executable name, whatever the directory. */
  lemma ExtractLastComponent(dir: string, exe: string)
    requires '/' !in exe && exe != "" && exe != "." && exe != ".."
    ensures ExtractExecutableName(dir + "/" + exe) == exe
  {
    FieldsSlash(dir, exe);
    FieldsNoSlash(exe);
    NonTrivialAppend(Fields(dir), [exe]);
    assert NonTrivial([exe]) == [exe];
  }

  lemma {:induction false} FieldsChars(s: string)
    ensures forall f, c :: f in Fields(s) && c in f ==> c in s
  {
    if s != [] {
      FieldsChars(s[1..]);
      assert s == [s[0]] + s[1..];
      var rest := Fields(s[1..]);
      if s[0] != '/' {
        assert Fields(s) == [[s[0]] + rest[0]] + rest[1..];
        forall f, c | f in Fields(s) && c in f ensures c in s {
          if f != [s[0]] + rest[0] {
            assert f in rest;
          } else if c != s[0] {
            assert c in rest[0];
          }
        }
      } else {
        assert Fields(s) == [[]] + rest;
      }
    }
  }

  lemma {:induction false} NonTrivialSubset(fs: seq<string>)
    requires forall i :: 0 <= i < |fs| ==> '/' !in fs[i]
    ensures forall x :: x in NonTrivial(fs) ==> x in fs
  {
    if fs != [] {
      NonTrivialSubset(fs[1..]);
      var head := if fs[0] == "" || fs[0] == "." then [] else [fs[0]];
      assert NonTrivial(fs) == head + NonTrivial(fs[1..]);
      assert fs == [fs[0]] + fs[1..];
    }
  }

  /** The executable name is made of characters of the command. */
  lemma ExtractChars(command: string)
    ensures forall c :: c in ExtractExecutableName(command) ==> c in command
  {
    var cs := Components(command);
    if FileName(command).Some? {
      FieldsChars(command);
      NonTrivialSubset(Fields(command));
      assert cs[|cs| - 1] in cs;
    }
  }

  /** The example of the doc comment. */
  lemma ExtractNginx()
    ensures ExtractExecutableName("/usr/bin/nginx") == "nginx"
  {
    assert "/usr/bin/nginx" == "/usr/bin" + "/" + "nginx";
    ExtractLastComponent("/usr/bin", "nginx");
  }
}
