/** The retained elements and the context of `dazzle.h`. An element is one
    of five shapes; the C union's unused members and the `next` link are
    not state of the model: the scene is the ordered list of elements. */
module Elements {

  import opened CInt
  import opened Optional
  import opened Alloc
  import opened Format
  import Blits

  datatype Element =
    | Triangle(x1: u32, y1: u32, x2: u32, y2: u32, x3: u32, y3: u32, filled: bool, color: bv64)
    | Quad(x1: u32, y1: u32, x2: u32, y2: u32, x3: u32, y3: u32, x4: u32, y4: u32,
           filled: bool, color: bv64)
    | Rectangle(x: u32, y: u32, width: u32, height: u32, filled: bool, color: bv64)
    | Circle(x: u32, y: u32, radius: u32, filled: bool, color: bv64)
    | Blitable(blit: Blits.Blit)

  /** `dazzle_context_t` with the framebuffer backend installed: the
      allocator, the backend's copy of the framebuffer descriptor (NULL when
      absent), the bytes of the framebuffer it points at, the element count
      and the scene. */
  datatype Context = Context(
    alloc: Allocator,
    renderer: Option<Descriptor>,
    screen: seq<bv8>,
    count: u32,
    scene: seq<Element>)
  {
    /** A backend descriptor is a valid one and the screen is its size. */
    predicate Valid()
    {
      renderer.Some? ==> renderer.value.Valid() && |screen| == renderer.value.Size()
    }

    /** `retained_count` agrees with the scene, modulo 2^32. */
    predicate CountMatches()
    {
      count == |scene| % TWO32
    }
  }
}
