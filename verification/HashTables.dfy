/** The table sizes and capacities CFBasicHash uses on a 64-bit machine. */
module HashTables {
  import opened HashModel

  /** `__CFBasicHashTableSizes` */
  function NumBuckets(idx: nat): nat {
    match idx
    case 1 => 3 case 2 => 7 case 3 => 13 case 4 => 23
    case 5 => 41 case 6 => 71 case 7 => 127 case 8 => 191
    case 9 => 251 case 10 => 383 case 11 => 631 case 12 => 1087
    case 13 => 1723 case 14 => 2803 case 15 => 4523 case 16 => 7351
    case 17 => 11959 case 18 => 19447 case 19 => 31231 case 20 => 50683
    case 21 => 81919 case 22 => 132607 case 23 => 214519 case 24 => 346607
    case 25 => 561109 case 26 => 907759 case 27 => 1468927 case 28 => 2376191
    case 29 => 3845119 case 30 => 6221311 case 31 => 10066421 case 32 => 16287743
    case 33 => 26354171 case 34 => 42641881 case 35 => 68996069 case 36 => 111638519
    case 37 => 180634607 case 38 => 292272623 case 39 => 472907251 case 40 => 765180413
    case 41 => 1238087663 case 42 => 2003267557 case 43 => 3241355263 case 44 => 5244622819
    case _ => 0
  }

  /** `__CFBasicHashTableCapacities` */
  function Capacity(idx: nat): nat {
    match idx
    case 1 => 3 case 2 => 6 case 3 => 11 case 4 => 19
    case 5 => 32 case 6 => 52 case 7 => 85 case 8 => 118
    case 9 => 155 case 10 => 237 case 11 => 390 case 12 => 672
    case 13 => 1065 case 14 => 1732 case 15 => 2795 case 16 => 4543
    case 17 => 7391 case 18 => 12019 case 19 => 19302 case 20 => 31324
    case 21 => 50629 case 22 => 81956 case 23 => 132580 case 24 => 214215
    case 25 => 346784 case 26 => 561026 case 27 => 907847 case 28 => 1468567
    case 29 => 2376414 case 30 => 3844982 case 31 => 6221390 case 32 => 10066379
    case 33 => 16287773 case 34 => 26354132 case 35 => 42641916 case 36 => 68996399
    case 37 => 111638327 case 38 => 180634415 case 39 => 292272755 case 40 => 472907503
    case 41 => 765180257 case 42 => 1238087439 case 43 => 2003267722 case 44 => 3241355160
    case _ => 0
  }

  const CF_TABLES := Tables(seq(45, i requires 0 <= i < 45 => NumBuckets(i)),
                            seq(45, i requires 0 <= i < 45 => Capacity(i)))

  lemma CapacitiesFit(i: nat)
    ensures Capacity(i) <= NumBuckets(i)
    ensures i < 44 ==> Capacity(i) < Capacity(i + 1)
  {
  }

  /** The CoreFoundation tables satisfy what the hash table code relies on. */
  lemma TablesAreSane()
    ensures CF_TABLES.Sane()
  {
    forall i | 0 <= i < 45
      ensures CF_TABLES.capacities[i] <= CF_TABLES.sizes[i]
      ensures i < 44 ==> CF_TABLES.capacities[i] < CF_TABLES.capacities[i + 1]
    {
      CapacitiesFit(i);
    }
  }
}
