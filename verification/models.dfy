/** The catalogue record the API serves (api/models.py). */
module Models {

  /** One book as loaded from the CSV file; the price is an exact decimal and
      the stock text is kept as it was scraped. */
  datatype Book = Book(
    id: int,
    title: string,
    price: real,
    stock: string,
    rating: int,
    category: string,
    productPageUrl: string,
    upc: string,
    description: string)
}
