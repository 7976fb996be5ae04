/**
 * The fictional star map handed to the graph engine: an ordered sequence
 * of named systems, each at a fixed position.
 */
module Universe {

  /** A position in space (glm::vec3); only equality and a distance
      function supplied by the caller are ever applied to it. */
  datatype Vec3 = Vec3(x: real, y: real, z: real)

  /** One star system: its name (possibly empty) and its position. */
  datatype System = System(name: string, position: Vec3)

  /**
   * The index of the first entry of `names` equal to `name`, or -1 when
   * there is none.
   */
  function FirstIndexOf(names: seq<string>, name: string): (r: int)
    ensures -1 <= r < |names|
    ensures r == -1 <==> name !in names
    ensures r != -1 ==> names[r] == name && name !in names[..r]
    ensures r == -1 <==> forall i :: 0 <= i < |names| ==> names[i] != name
    ensures r != -1 ==> forall i :: 0 <= i < r ==> names[i] != name
  {
    if |names| == 0 then -1
    else if names[0] == name then 0
    else
      var rest := FirstIndexOf(names[1..], name);
      assert rest != -1 ==> names[..rest + 1] == [names[0]] + names[1..][..rest];
      if rest == -1 then -1 else rest + 1
  }

  datatype Universe = Universe(systems: seq<System>) {

    /** The names of the systems, in order. */
    function Names(): (r: seq<string>)
      ensures |r| == |systems|
      ensures forall i :: 0 <= i < |systems| ==> r[i] == systems[i].name
    {
      seq(|systems|, i requires 0 <= i < |systems| => systems[i].name)
    }

    /** Index of the first system called `name`; -1 when no system has it. */
    function GetIndexByName(name: string): (r: int)
      ensures -1 <= r < |systems|
      ensures r == -1 <==> forall i :: 0 <= i < |systems| ==> systems[i].name != name
      ensures r != -1 ==> systems[r].name == name
      ensures r != -1 ==> forall i :: 0 <= i < r ==> systems[i].name != name
    {
      FirstIndexOf(Names(), name)
    }

    /** Position of the first system called `name`; the name must exist. */
    function GetPositionByName(name: string): (p: Vec3)
      requires exists i :: 0 <= i < |systems| && systems[i].name == name
      ensures exists i :: 0 <= i < |systems| && systems[i].name == name && systems[i].position == p
                          && forall j :: 0 <= j < i ==> systems[j].name != name
    {
      systems[GetIndexByName(name)].position
    }
  }
}
