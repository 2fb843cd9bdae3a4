/** The assembly of the palette strip: for each cluster label in turn, the
    hex codes labelled with it (in table order), sorted by `sort_colors_lch`,
    appended to the output. The labels are those `KMeans.fit_predict`
    assigns; they arrive here as data. */
module PaletteAssembly {
  import opened LchSort
  import HexInput
  import Wrappers

  /** One row of `color_dict`: a hex code and the cluster KMeans gave it. */
  datatype Row = Row(hexcode: string, cluster: int)

  /** `color_dict['cluster'] = labels` beside its `'Hexcode'` column: reading
      the two columns back gives the codes and the labels. */
  function ColorTable(hexcodes: seq<string>, labels: seq<int>): (table: seq<Row>)
    requires |hexcodes| == |labels|
    ensures Hexcodes(table) == hexcodes && Labels(table) == labels
  {
    seq(|hexcodes|, i requires 0 <= i < |hexcodes| => Row(hexcodes[i], labels[i]))
  }

  /** The `'Hexcode'` column. */
  function Hexcodes(table: seq<Row>): (codes: seq<string>)
    ensures |codes| == |table|
  {
    seq(|table|, i requires 0 <= i < |table| => table[i].hexcode)
  }

  /** The `'cluster'` column. */
  function Labels(table: seq<Row>): (labels: seq<int>)
    ensures |labels| == |table|
  {
    seq(|table|, i requires 0 <= i < |table| => table[i].cluster)
  }

  /** Every label lies in `0..nClusters-1`, as KMeans guarantees. */
  predicate LabelsInRange(table: seq<Row>, nClusters: int)
  {
    forall i :: 0 <= i < |table| ==> 0 <= table[i].cluster < nClusters
  }

  /** `color_dict[color_dict['cluster'] == cluster]['Hexcode'].tolist()`:
      the codes of that cluster in table order. */
  function ClusterColors(table: seq<Row>, cluster: int): (colors: seq<string>)
    ensures |colors| <= |table|
  {
    if table == [] then []
    else
      var head := if table[0].cluster == cluster then [table[0].hexcode] else [];
      head + ClusterColors(table[1..], cluster)
  }

  /** The selection is exactly the codes of the rows carrying that label. */
  lemma {:induction false} ClusterColorsMembers(table: seq<Row>, cluster: int, x: string)
    ensures x in ClusterColors(table, cluster) <==>
      exists i :: 0 <= i < |table| && table[i].cluster == cluster && table[i].hexcode == x
    decreases |table|
  {
    if table != [] {
      ClusterColorsMembers(table[1..], cluster, x);
      if exists i :: 0 <= i < |table| && table[i].cluster == cluster && table[i].hexcode == x {
        var i :| 0 <= i < |table| && table[i].cluster == cluster && table[i].hexcode == x;
        if i > 0 {
          assert table[1..][i - 1] == table[i];
        }
      }
      if exists i :: 0 <= i < |table| - 1 && table[1..][i].cluster == cluster && table[1..][i].hexcode == x {
        var i :| 0 <= i < |table| - 1 && table[1..][i].cluster == cluster && table[1..][i].hexcode == x;
        assert table[i + 1] == table[1..][i];
      }
    }
  }

  /** The selection keeps table order: selecting from a concatenation
      concatenates the selections. */
  lemma {:induction false} ClusterColorsAppend(a: seq<Row>, b: seq<Row>, cluster: int)
    ensures ClusterColors(a + b, cluster) == ClusterColors(a, cluster) + ClusterColors(b, cluster)
    decreases |a|
  {
    if a != [] {
      assert (a + b)[1..] == a[1..] + b;
      ClusterColorsAppend(a[1..], b, cluster);
    } else {
      assert a + b == b;
    }
  }

  /** The palette after the first `clusters` iterations of the loop: the
      sorted clusters `0..clusters-1`, one after the other. */
  function GroupedPalette(table: seq<Row>, clusters: nat, lch: string -> Lch): seq<string>
  {
    if clusters == 0 then []
    else
      var sortedClusterColors := SortColorsLch(ClusterColors(table, clusters - 1), lch);
      GroupedPalette(table, clusters - 1, lch) + sortedClusterColors
  }

  /** The loop `for cluster in range(n_clusters)` growing `sorted_colors`
      with `.extend`. With every label in range the result is a permutation
      of the input codes. */
  method AssemblePalette(table: seq<Row>, nClusters: nat, lch: string -> Lch)
    returns (sortedColors: seq<string>)
    ensures sortedColors == GroupedPalette(table, nClusters, lch)
    ensures LabelsInRange(table, nClusters) ==>
      |sortedColors| == |table| && multiset(sortedColors) == multiset(Hexcodes(table))
  {
    sortedColors := [];
    for cluster := 0 to nClusters
      invariant sortedColors == GroupedPalette(table, cluster, lch)
    {
      var clusterData := ClusterColors(table, cluster);
      var sortedClusterColors := SortColorsLch(clusterData, lch);
      sortedColors := sortedColors + sortedClusterColors;
    }
    if LabelsInRange(table, nClusters) {
      PalettePermutation(table, nClusters, lch);
    }
  }

  // ---------------------------------------------------------------------------
  // what the assembled palette is
  // ---------------------------------------------------------------------------

  /** The codes whose label lies in `0..bound-1`, in table order. */
  function ColorsBelow(table: seq<Row>, bound: int): seq<string>
  {
    if table == [] then []
    else
      var head := if 0 <= table[0].cluster < bound then [table[0].hexcode] else [];
      head + ColorsBelow(table[1..], bound)
  }

  /** Raising the bound by one adds exactly the codes of that cluster. */
  lemma {:induction false} ColorsBelowStep(table: seq<Row>, c: nat)
    ensures multiset(ColorsBelow(table, c + 1)) == multiset(ColorsBelow(table, c)) + multiset(ClusterColors(table, c))
    decreases |table|
  {
    if table != [] {
      ColorsBelowStep(table[1..], c);
    }
  }

  /** With every label in range, all codes lie below the bound. */
  lemma {:induction false} ColorsBelowAll(table: seq<Row>, nClusters: int)
    requires LabelsInRange(table, nClusters)
    ensures ColorsBelow(table, nClusters) == Hexcodes(table)
    decreases |table|
  {
    if table != [] {
      assert LabelsInRange(table[1..], nClusters) by {
        forall i | 0 <= i < |table| - 1 ensures 0 <= table[1..][i].cluster < nClusters {
          assert table[1..][i] == table[i + 1];
        }
      }
      ColorsBelowAll(table[1..], nClusters);
      assert Hexcodes(table) == [table[0].hexcode] + Hexcodes(table[1..]);
    }
  }

  /** One more iteration appends a permutation of the next cluster's codes. */
  lemma GroupedPaletteStep(table: seq<Row>, c: nat, lch: string -> Lch)
    ensures multiset(GroupedPalette(table, c + 1, lch))
      == multiset(GroupedPalette(table, c, lch)) + multiset(ClusterColors(table, c))
    ensures |GroupedPalette(table, c + 1, lch)| == |GroupedPalette(table, c, lch)| + |ClusterColors(table, c)|
  {
    var block := SortColorsLch(ClusterColors(table, c), lch);
    assert GroupedPalette(table, c + 1, lch) == GroupedPalette(table, c, lch) + block;
  }

  /** The first `clusters` blocks hold exactly the codes labelled below `clusters`. */
  lemma {:induction false} GroupedPaletteHolds(table: seq<Row>, clusters: nat, lch: string -> Lch)
    ensures multiset(GroupedPalette(table, clusters, lch)) == multiset(ColorsBelow(table, clusters))
    decreases clusters
  {
    if clusters == 0 {
      ColorsBelowNone(table);
    } else {
      var c := clusters - 1;
      GroupedPaletteHolds(table, c, lch);
      ColorsBelowStep(table, c);
      GroupedPaletteStep(table, c, lch);
      assert c + 1 == clusters;
    }
  }

  lemma {:induction false} ColorsBelowNone(table: seq<Row>)
    ensures ColorsBelow(table, 0) == []
    decreases |table|
  {
    if table != [] {
      ColorsBelowNone(table[1..]);
    }
  }

  /** Every code appears in the palette exactly as often as in the input:
      none is dropped and none duplicated. */
  lemma PalettePermutation(table: seq<Row>, nClusters: nat, lch: string -> Lch)
    requires LabelsInRange(table, nClusters)
    ensures multiset(GroupedPalette(table, nClusters, lch)) == multiset(Hexcodes(table))
    ensures |GroupedPalette(table, nClusters, lch)| == |table|
  {
    GroupedPaletteHolds(table, nClusters, lch);
    ColorsBelowAll(table, nClusters);
    assert |Hexcodes(table)| == |table|;
    assert |multiset(Hexcodes(table))| == |table|;
  }

  /** Where the block of cluster `c` starts: the number of codes labelled
      `0..c-1`. */
  function BlockStart(table: seq<Row>, c: nat): nat
  {
    |ColorsBelow(table, c)|
  }

  lemma {:induction false} ColorsBelowLength(table: seq<Row>, c: nat)
    ensures |ColorsBelow(table, c + 1)| == |ColorsBelow(table, c)| + |ClusterColors(table, c)|
    decreases |table|
  {
    if table != [] {
      ColorsBelowLength(table[1..], c);
    }
  }

  lemma {:induction false} GroupedPaletteLength(table: seq<Row>, clusters: nat, lch: string -> Lch)
    ensures |GroupedPalette(table, clusters, lch)| == BlockStart(table, clusters)
    decreases clusters
  {
    if clusters == 0 {
      ColorsBelowNone(table);
    } else {
      var c := clusters - 1;
      GroupedPaletteLength(table, c, lch);
      ColorsBelowLength(table, c);
      GroupedPaletteStep(table, c, lch);
      assert c + 1 == clusters;
    }
  }

  /** The palette after fewer iterations is a prefix of the later one. */
  lemma {:induction false} GroupedPalettePrefix(table: seq<Row>, c: nat, k: nat, lch: string -> Lch)
    requires c <= k
    ensures GroupedPalette(table, c, lch) <= GroupedPalette(table, k, lch)
    decreases k - c
  {
    if c < k {
      var k1 := k - 1;
      GroupedPalettePrefix(table, c, k1, lch);
      var block := SortColorsLch(ClusterColors(table, k1), lch);
      assert GroupedPalette(table, k, lch) == GroupedPalette(table, k1, lch) + block;
      assert GroupedPalette(table, k, lch)[..|GroupedPalette(table, k1, lch)|] == GroupedPalette(table, k1, lch);
    }
  }

  /** The palette is grouped by label in ascending order: cluster `c`
      occupies the positions `BlockStart(c)..BlockStart(c+1)-1`, which come
      after every earlier cluster's and before every later cluster's, and it
      holds the members of `c` sorted by `sort_colors_lch`. An empty cluster
      has an empty block. */
  lemma PaletteBlocks(table: seq<Row>, nClusters: nat, lch: string -> Lch, c: nat)
    requires c < nClusters
    ensures BlockStart(table, c) + |ClusterColors(table, c)| == BlockStart(table, c + 1) <= |GroupedPalette(table, nClusters, lch)|
    ensures GroupedPalette(table, nClusters, lch)[BlockStart(table, c)..BlockStart(table, c + 1)]
      == SortColorsLch(ClusterColors(table, c), lch)
  {
    ColorsBelowLength(table, c);
    GroupedPaletteLength(table, c, lch);
    GroupedPalettePrefix(table, c + 1, nClusters, lch);
    GroupedPaletteUnfold(table, c, lch);
    SliceOfPrefix(GroupedPalette(table, nClusters, lch), GroupedPalette(table, c, lch),
      SortColorsLch(ClusterColors(table, c), lch), BlockStart(table, c), BlockStart(table, c + 1));
  }

  lemma GroupedPaletteUnfold(table: seq<Row>, c: nat, lch: string -> Lch)
    ensures GroupedPalette(table, c + 1, lch)
      == GroupedPalette(table, c, lch) + SortColorsLch(ClusterColors(table, c), lch)
  {
  }

  lemma SliceOfPrefix(all: seq<string>, before: seq<string>, block: seq<string>, lo: nat, hi: nat)
    requires before + block <= all
    requires lo == |before| && hi == |before| + |block|
    ensures hi <= |all| && all[lo..hi] == block
  {
    assert all[..|before| + |block|] == before + block;
    assert all[|before|..|before| + |block|] == (before + block)[|before|..];
  }

  /** Blocks are in label order: cluster `c`'s block ends no later than a
      later cluster `d`'s block starts. */
  lemma {:induction false} BlocksAscend(table: seq<Row>, c: nat, d: nat)
    requires c < d
    ensures BlockStart(table, c + 1) <= BlockStart(table, d)
    decreases d - c
  {
    if c + 1 < d {
      BlocksAscend(table, c, d - 1);
      ColorsBelowLength(table, d - 1);
    }
  }

  /** A label no row carries adds nothing to the palette. */
  lemma EmptyClusterAddsNothing(table: seq<Row>, c: nat, lch: string -> Lch)
    requires forall i :: 0 <= i < |table| ==> table[i].cluster != c
    ensures GroupedPalette(table, c + 1, lch) == GroupedPalette(table, c, lch)
  {
    ClusterColorsAbsent(table, c);
  }

  lemma {:induction false} ClusterColorsAbsent(table: seq<Row>, c: int)
    requires forall i :: 0 <= i < |table| ==> table[i].cluster != c
    ensures ClusterColors(table, c) == []
    decreases |table|
  {
    if table != [] {
      assert forall i :: 0 <= i < |table| - 1 ==> table[1..][i] == table[i + 1];
      ClusterColorsAbsent(table[1..], c);
    }
  }

  /** With a single cluster the palette is the whole input, sorted. */
  lemma SingleCluster(table: seq<Row>, lch: string -> Lch)
    requires LabelsInRange(table, 1)
    ensures GroupedPalette(table, 1, lch) == SortColorsLch(Hexcodes(table), lch)
  {
    ClusterColorsAll(table);
  }

  lemma {:induction false} ClusterColorsAll(table: seq<Row>)
    requires LabelsInRange(table, 1)
    ensures ClusterColors(table, 0) == Hexcodes(table)
    decreases |table|
  {
    if table != [] {
      assert forall i :: 0 <= i < |table| - 1 ==> table[1..][i] == table[i + 1];
      ClusterColorsAll(table[1..]);
      assert Hexcodes(table) == [table[0].hexcode] + Hexcodes(table[1..]);
    }
  }

  // ---------------------------------------------------------------------------
  // from the accepted request to the palette
  // ---------------------------------------------------------------------------

  /** The palette of a table built from codes and in-range labels holds
      every code exactly as often as the codes do. */
  lemma PaletteOfCodes(hexcodes: seq<string>, labels: seq<int>, nClusters: nat, lch: string -> Lch)
    requires |hexcodes| == |labels|
    requires forall i :: 0 <= i < |labels| ==> 0 <= labels[i] < nClusters
    ensures var palette := GroupedPalette(ColorTable(hexcodes, labels), nClusters, lch);
      |palette| == |hexcodes| && multiset(palette) == multiset(hexcodes)
  {
    var table := ColorTable(hexcodes, labels);
    assert LabelsInRange(table, nClusters) by {
      forall i | 0 <= i < |table| ensures 0 <= table[i].cluster < nClusters {
        assert table[i].cluster == Labels(table)[i];
      }
    }
    PalettePermutation(table, nClusters, lch);
  }

  /** For a request `processColors` accepts, with labels in `0..n-1` for its
      cluster count `n`, the palette strip shows exactly the codes typed into
      the textarea: each as often as it was entered, and no other. */
  lemma AcceptedInputPalette(hexInput: string, numClusters: Wrappers.Option<int>, labels: seq<int>, lch: string -> Lch)
    requires HexInput.ProcessColors(hexInput, numClusters).Ok?
    requires |labels| == |HexInput.Tokenize(hexInput)|
    requires forall i :: 0 <= i < |labels| ==>
      0 <= labels[i] < HexInput.ProcessColors(hexInput, numClusters).value.numClusters
    ensures var request := HexInput.ProcessColors(hexInput, numClusters).value;
      request.numClusters >= 1
      && multiset(GroupedPalette(ColorTable(request.hexcodes, labels), request.numClusters, lch))
        == multiset(HexInput.Tokenize(hexInput))
  {
    var request := HexInput.ProcessColors(hexInput, numClusters).value;
    PaletteOfCodes(request.hexcodes, labels, request.numClusters, lch);
  }
}
