/**
  The end-to-end scenario of the scope's test suite: a writer and a reader
  take turns over two nodes for `iter1` fork/join rounds of `iter2` writes
  each. Within a round the reader keeps seeing the values of the fork; after
  the last join it sees every write.
*/
module CowTest {
  import opened DirtyList
  import opened Cow

  datatype Species = Chicken(eggsPerDay: nat) | Bull(horns: nat)
  datatype Animal = Animal(name: string, species: Species)
  /** The auxiliary data type the test's scope is declared with. */
  datatype Processed = Processed(flag: bool)

  /** The count the test tracks: a chicken's eggs per day, a bull's horns. */
  function ReadCharacteristic(a: Animal): (r: nat)
    ensures a.species.Chicken? ==> r == a.species.eggsPerDay
    ensures a.species.Bull? ==> r == a.species.horns
  {
    match a.species
    case Chicken(eggs) => eggs
    case Bull(horns) => horns
  }

  /** One more egg per day, or one more horn. */
  function Mutate(a: Animal): (r: Animal)
    ensures r.name == a.name && r.species.Chicken? == a.species.Chicken?
    ensures ReadCharacteristic(r) == ReadCharacteristic(a) + 1
  {
    match a.species
    case Chicken(eggs) => a.(species := Chicken(eggs + 1))
    case Bull(horns) => a.(species := Bull(horns + 1))
  }

  /** One fork of the test: `iter2` steps in each of which the reader reads
      a node and then the writer mutates it. The reader's values stay those
      of the fork while the writer's grow by one per step. */
  method Round(s: Scope<Animal, Processed>, henrietta: Handle, ferdinand: Handle, hrc: nat, frc: nat, iter2: nat)
    requires s.Valid() && s.layoutActive
    requires henrietta < |s.freeList| && ferdinand < |s.freeList| && henrietta != ferdinand
    requires ReadCharacteristic(s.ReaderView(henrietta)) == hrc == ReadCharacteristic(s.WriterView(henrietta))
    requires ReadCharacteristic(s.ReaderView(ferdinand)) == frc == ReadCharacteristic(s.WriterView(ferdinand))
    modifies s
    ensures s.Valid() && s.layoutActive && s.freeList == old(s.freeList)
    ensures s.ReaderView(henrietta) == old(s.ReaderView(henrietta))
    ensures s.ReaderView(ferdinand) == old(s.ReaderView(ferdinand))
    ensures ReadCharacteristic(s.WriterView(henrietta)) == hrc + iter2
    ensures ReadCharacteristic(s.WriterView(ferdinand)) == frc + iter2
  {
    var j := 0;
    while j < iter2
      invariant j <= iter2
      invariant s.Valid() && s.layoutActive && s.freeList == old(s.freeList)
      invariant s.ReaderView(henrietta) == old(s.ReaderView(henrietta))
      invariant s.ReaderView(ferdinand) == old(s.ReaderView(ferdinand))
      invariant ReadCharacteristic(s.WriterView(henrietta)) == hrc + j
      invariant ReadCharacteristic(s.WriterView(ferdinand)) == frc + j
    {
      var hen := s.ReaderRead(henrietta);
      assert ReadCharacteristic(hen) == hrc;
      s.Write(henrietta, Mutate);
      var ferd := s.ReaderRead(ferdinand);
      assert ReadCharacteristic(ferd) == frc;
      s.Write(ferdinand, Mutate);
      j := j + 1;
    }
  }

  /** The reader and the writer interleaved sequentially: in each step of a
      round the reader reads a node and the writer then mutates it. Returns
      what the reader finally sees of both nodes. */
  method InterspersedExecution(iter1: nat, iter2: nat) returns (henCount: nat, ferdCount: nat)
    ensures henCount == iter1 * iter2 && ferdCount == iter1 * iter2
  {
    var s := new Scope<Animal, Processed>();
    var henrietta := s.NewHandle(Animal("henrietta", Chicken(0)));
    var ferdinand := s.NewHandle(Animal("ferdinand", Bull(0)));

    var i := 0;
    while i < iter1
      invariant i <= iter1
      invariant s.Valid() && !s.layoutActive
      invariant henrietta < |s.freeList| && ferdinand < |s.freeList| && henrietta != ferdinand
      invariant ReadCharacteristic(s.ReaderView(henrietta)) == i * iter2
      invariant ReadCharacteristic(s.ReaderView(ferdinand)) == i * iter2
      invariant s.WriterView(henrietta) == s.ReaderView(henrietta)
      invariant s.WriterView(ferdinand) == s.ReaderView(ferdinand)
    {
      s.ReaderForked();
      var hen := s.ReaderRead(henrietta);
      var hrc := ReadCharacteristic(hen);
      assert hrc == i * iter2;
      var ferd := s.ReaderRead(ferdinand);
      var frc := ReadCharacteristic(ferd);
      assert frc == i * iter2;

      Round(s, henrietta, ferdinand, hrc, frc, iter2);
      s.ReaderJoined();
      assert (i + 1) * iter2 == i * iter2 + iter2;
      i := i + 1;
    }

    var hen := s.ReaderRead(henrietta);
    henCount := ReadCharacteristic(hen);
    var ferd := s.ReaderRead(ferdinand);
    ferdCount := ReadCharacteristic(ferd);
  }
}
